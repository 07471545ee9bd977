/**
 One HTTP/1 request head: what the head parser is known to do, and how a
 complete head is classified (src/app/http1.rs, sections 6.1 and 6.3 of RFC 9112).
 */
module Http1Head {
  import opened Basics
  import opened Text

  datatype Verdict = Persistent | Terminal | Ambiguous | Unclassified

  datatype Header = Header(name: string, value: string)

  /** What the parser library reports of the front of a byte stream. */
  datatype Parsed = Complete(length: nat, verb: string, headers: seq<Header>) | Partial | Invalid

  type Library = string -> Parsed

  /** What `inspect_head` reports: a complete head with its framing. */
  datatype HeadParse = CompleteHead(length: nat, verdict: Verdict, body: nat) | PartialHead | InvalidHead

  type Parser = string -> HeadParse

  /** Hyper rejects lengths above `u64::MAX - 2`. */
  const MAX_DECODABLE_LENGTH: nat := 0xFFFF_FFFF_FFFF_FFFF - 2

  // ------------------------------------------------------- leading blank lines

  /** The number of bytes in the empty lines at the front. */
  function Blank(b: string): (n: nat)
    ensures n <= |b|
  {
    if |b| >= 2 && b[0] == '\r' && b[1] == '\n' then 2 + Blank(b[2..])
    else if |b| >= 1 && b[0] == '\n' then 1 + Blank(b[1..])
    else 0
  }

  function Trimmed(b: string): string {
    b[Blank(b)..]
  }

  method TrimLeadingEmptyLines(buffer: string) returns (rest: string, skipped: nat)
    ensures skipped == Blank(buffer) && rest == Trimmed(buffer)
  {
    skipped := 0;
    while true
      invariant skipped <= |buffer| && Blank(buffer) == skipped + Blank(buffer[skipped..])
      decreases |buffer| - skipped
    {
      var front := buffer[skipped..];
      if |front| >= 2 && front[0] == '\r' && front[1] == '\n' {
        assert front[2..] == buffer[skipped + 2..];
        skipped := skipped + 2;
      } else if |front| >= 1 && front[0] == '\n' {
        assert front[1..] == buffer[skipped + 1..];
        skipped := skipped + 1;
      } else {
        break;
      }
    }
    rest := buffer[skipped..];
  }

  lemma FrontGone(t: string, x: string, n: nat)
    requires n <= |t|
    ensures (t + x)[n..] == t[n..] + x
  {
  }

  /** Dropping one blank line does not change what is left. */
  lemma TrimmedStep(t: string, n: nat)
    requires n <= |t| && Blank(t) == n + Blank(t[n..])
    ensures Trimmed(t) == Trimmed(t[n..])
  {
  }

  lemma {:induction false} BlankExtend(t: string, x: string)
    ensures Blank(t + x) == Blank(t) + Blank(Trimmed(t) + x)
    ensures Trimmed(t + x) == Trimmed(Trimmed(t) + x)
  {
    if |t| >= 2 && t[0] == '\r' && t[1] == '\n' {
      BlankExtend(t[2..], x);
      FrontGone(t, x, 2);
      TrimmedStep(t, 2);
      TrimmedStep(t + x, 2);
    } else if |t| >= 1 && t[0] == '\n' {
      BlankExtend(t[1..], x);
      FrontGone(t, x, 1);
      TrimmedStep(t, 1);
      TrimmedStep(t + x, 1);
    } else {
      assert Trimmed(t) == t;
    }
  }

  lemma {:induction false} TrimmedTwice(t: string)
    ensures Blank(Trimmed(t)) == 0
  {
    if |t| >= 2 && t[0] == '\r' && t[1] == '\n' {
      TrimmedTwice(t[2..]);
      assert Trimmed(t) == Trimmed(t[2..]);
    } else if |t| >= 1 && t[0] == '\n' {
      TrimmedTwice(t[1..]);
      assert Trimmed(t) == Trimmed(t[1..]);
    } else {
      assert Trimmed(t) == t;
    }
  }

  // -------------------------------------------------------- the head terminator

  /** An empty line ends at or after position `i`. */
  predicate TerminatorAt(b: string, i: nat) {
    || (i + 1 < |b| && b[i] == '\n' && b[i + 1] == '\n')
    || (i + 2 < |b| && b[i] == '\n' && b[i + 1] == '\r' && b[i + 2] == '\n')
  }

  predicate HasTerminator(b: string, start: nat) {
    exists i :: start <= i < |b| && TerminatorAt(b, i)
  }

  function Monus(a: nat, b: nat): nat {
    if a >= b then a - b else 0
  }

  /** Scanning again from two bytes back misses nothing. */
  lemma OverlapScan(b: string, scanned: nat)
    requires scanned <= |b| && !HasTerminator(b[..scanned], 0)
    ensures HasTerminator(b, Monus(scanned, 2)) <==> HasTerminator(b, 0)
  {
    if HasTerminator(b, 0) {
      var i :| 0 <= i < |b| && TerminatorAt(b, i);
      if i < Monus(scanned, 2) {
        assert TerminatorAt(b[..scanned], i);
      }
    }
  }

  lemma TerminatorExtend(b: string, x: string)
    requires HasTerminator(b, 0)
    ensures HasTerminator(b + x, 0)
  {
    var i :| 0 <= i < |b| && TerminatorAt(b, i);
    assert TerminatorAt(b + x, i);
  }

  lemma TerminatorPrefix(b: string, n: nat)
    requires n <= |b| && HasTerminator(b[..n], 0)
    ensures HasTerminator(b, 0)
  {
    TerminatorExtend(b[..n], b[n..]);
    assert b[..n] + b[n..] == b;
  }

  // ---------------------------------------------------------- laws of the parser

  function Shift(r: HeadParse, n: nat): HeadParse {
    if r.CompleteHead? then r.(length := r.length + n) else r
  }

  ghost predicate CompleteFits(p: Parser, b: string) {
    p(b).CompleteHead? ==> 0 < p(b).length <= |b|
  }

  ghost predicate Stable(p: Parser, b: string, x: string) {
    !p(b).PartialHead? ==> p(b + x) == p(b)
  }

  ghost predicate SkipsBlankLines(p: Parser, b: string) {
    p("\n" + b) == Shift(p(b), 1) && p("\r\n" + b) == Shift(p(b), 2)
  }

  /** On a head without leading blank lines: an empty line decides it, and only
      an empty line completes it. */
  ghost predicate EndsAtTerminator(p: Parser, b: string) {
    Blank(b) == 0 ==>
      && (HasTerminator(b, 0) ==> !p(b).PartialHead?)
      && (p(b).CompleteHead? && p(b).length <= |b| ==> HasTerminator(b[..p(b).length], 0))
  }

  ghost predicate Lawful(p: Parser) {
    && p("") == PartialHead
    && (forall b :: CompleteFits(p, b))
    && (forall b, x :: Stable(p, b, x))
    && (forall b :: SkipsBlankLines(p, b))
    && (forall b :: EndsAtTerminator(p, b))
  }

  /** Leading blank lines only shift the length. */
  lemma {:induction false} ParseTrimmed(p: Parser, b: string)
    requires Lawful(p)
    ensures p(b) == Shift(p(Trimmed(b)), Blank(b))
  {
    if |b| >= 2 && b[0] == '\r' && b[1] == '\n' {
      ParseTrimmed(p, b[2..]);
      assert SkipsBlankLines(p, b[2..]);
      assert b == "\r\n" + b[2..];
      assert Trimmed(b) == Trimmed(b[2..]);
    } else if |b| >= 1 && b[0] == '\n' {
      ParseTrimmed(p, b[1..]);
      assert SkipsBlankLines(p, b[1..]);
      assert b == "\n" + b[1..];
      assert Trimmed(b) == Trimmed(b[1..]);
    } else {
      assert Trimmed(b) == b;
    }
  }

  /** A terminator in the trimmed bytes decides the head, and a complete head
      has one. */
  lemma TerminatorDecides(p: Parser, b: string)
    requires Lawful(p)
    ensures HasTerminator(Trimmed(b), 0) ==> !p(b).PartialHead?
    ensures p(b).CompleteHead? ==> HasTerminator(Trimmed(b), 0)
  {
    ParseTrimmed(p, b);
    TrimmedTwice(b);
    var t := Trimmed(b);
    assert EndsAtTerminator(p, t) && CompleteFits(p, t);
    if p(b).CompleteHead? {
      TerminatorPrefix(t, p(t).length);
    }
  }

  /** A complete head depends on its own bytes only. */
  lemma CompletePrefix(p: Parser, b: string, n: nat)
    requires Lawful(p) && p(b).CompleteHead? && n <= |b|
    ensures p(b).length <= |b|
    ensures p(b).length <= n ==> p(b[..n]) == p(b)
    ensures n < p(b).length ==> p(b[..n]).PartialHead?
  {
    assert CompleteFits(p, b);
    var front := b[..n];
    assert b == front + b[n..];
    assert Stable(p, front, b[n..]);
    assert CompleteFits(p, front);
    if p(b).length <= n {
      ParseTrimmed(p, b);
      ParseTrimmed(p, front);
      TrimmedTwice(b);
      var t := Trimmed(b);
      assert EndsAtTerminator(p, t) && CompleteFits(p, t);
      BlankOfPrefix(b, n);
      assert Trimmed(front) == t[..n - Blank(b)];
      assert t[..n - Blank(b)][..p(t).length] == t[..p(t).length];
      TerminatorPrefix(t[..n - Blank(b)], p(t).length);
      TerminatorDecides(p, front);
    }
  }

  /** A prefix that reaches past the blank lines trims the same bytes. */
  lemma {:induction false} BlankOfPrefix(b: string, n: nat)
    requires Blank(b) <= n <= |b|
    ensures Blank(b[..n]) == Blank(b)
  {
    if |b| >= 2 && b[0] == '\r' && b[1] == '\n' {
      BlankOfPrefix(b[2..], n - 2);
      assert b[..n][2..] == b[2..][..n - 2];
    } else if |b| >= 1 && b[0] == '\n' {
      BlankOfPrefix(b[1..], n - 1);
      assert b[..n][1..] == b[1..][..n - 1];
    }
  }

  // -------------------------------------------------------------- Content-Length

  /** The value of a Content-Length field, if it is one Hyper can decode. */
  function ContentLength(value: string): Option<nat> {
    if value != "" && AllDigits(value) && Decimal(value) <= MAX_DECODABLE_LENGTH then Some(Decimal(value)) else None
  }

  /** The checked-arithmetic loop of `parse_content_length`. */
  method ParseContentLength(value: string) returns (r: Option<nat>)
    ensures r == ContentLength(value)
  {
    if value == "" {
      return None;
    }
    var length := 0;
    for i := 0 to |value|
      invariant AllDigits(value[..i]) && length == Decimal(value[..i]) <= U64_MAX
    {
      if !IsDigit(value[i]) {
        return None;
      }
      assert value[..i + 1][..i] == value[..i];
      var next := length * 10 + DigitValue(value[i]);
      assert next == Decimal(value[..i + 1]);
      if length * 10 > U64_MAX || next > U64_MAX {
        if AllDigits(value) {
          DecimalMonotone(value, i + 1);
        }
        return None;
      }
      length := next;
    }
    assert value[..|value|] == value;
    return if length <= MAX_DECODABLE_LENGTH then Some(length) else None;
  }

  // -------------------------------------------------------------- classification

  predicate Named(header: Header, name: string) {
    EqualIgnoringCase(header.name, name)
  }

  /** One of the first `n` fields has the name. */
  predicate HasWithin(headers: seq<Header>, n: nat, name: string)
    requires n <= |headers|
  {
    exists i :: 0 <= i < n && Named(headers[i], name)
  }

  predicate Has(headers: seq<Header>, name: string) {
    HasWithin(headers, |headers|, name)
  }

  lemma HasWithinStep(headers: seq<Header>, n: nat, name: string)
    requires n < |headers|
    ensures HasWithin(headers, n + 1, name) <==> HasWithin(headers, n, name) || Named(headers[n], name)
  {
  }

  /** The first Content-Length value that parses. */
  function FirstLength(headers: seq<Header>, n: nat): Option<nat>
    requires n <= |headers|
  {
    if n == 0 then None
    else
      var before := FirstLength(headers, n - 1);
      if before.Some? then before
      else if IsLength(headers[n - 1]) then ContentLength(headers[n - 1].value)
      else None
  }

  /** A field the loop counts as Content-Length: the name test follows that for
      Transfer-Encoding. */
  predicate IsLength(header: Header) {
    Named(header, "content-length")
  }

  /** Every Content-Length among the first `n` fields parses, to one value. */
  predicate LengthsAgree(headers: seq<Header>, n: nat)
    requires n <= |headers|
  {
    forall i :: 0 <= i < n && IsLength(headers[i]) ==>
      ContentLength(headers[i].value).Some? && ContentLength(headers[i].value) == FirstLength(headers, n)
  }

  /** The framing verdict of a head: both fields together are ambiguous; a
      successor that cannot be located makes the head terminal. */
  function HeadVerdict(verb: string, headers: seq<Header>): Verdict {
    if Has(headers, "transfer-encoding") && Has(headers, "content-length") then Ambiguous
    else if Has(headers, "transfer-encoding") || Has(headers, "upgrade")
            || EqualIgnoringCase(verb, "CONNECT") || !LengthsAgree(headers, |headers|) then Terminal
    else Persistent
  }

  function BodyLength(headers: seq<Header>): nat {
    match FirstLength(headers, |headers|) case Some(n) => n case None => 0
  }

  lemma {:induction false} FirstLengthStable(headers: seq<Header>, i: nat, n: nat)
    requires i <= n <= |headers|
    ensures FirstLength(headers, i).Some? ==> FirstLength(headers, n) == FirstLength(headers, i)
  {
    if i < n {
      FirstLengthStable(headers, i, n - 1);
    }
  }

  lemma LengthsAgreeStep(headers: seq<Header>, n: nat)
    requires n < |headers|
    ensures LengthsAgree(headers, n + 1) <==>
              LengthsAgree(headers, n)
              && (IsLength(headers[n]) ==>
                    && ContentLength(headers[n].value).Some?
                    && (FirstLength(headers, n).Some? ==> FirstLength(headers, n) == ContentLength(headers[n].value)))
  {
    FirstLengthStable(headers, n, n + 1);
    if LengthsAgree(headers, n + 1) {
      forall i | 0 <= i < n && IsLength(headers[i])
        ensures ContentLength(headers[i].value) == FirstLength(headers, n)
      {
        FirstLengthSeen(headers, i, n);
      }
    }
  }

  /** A parsable length among the first `n` fields makes the first length known. */
  lemma {:induction false} FirstLengthSeen(headers: seq<Header>, i: nat, n: nat)
    requires i < n <= |headers| && IsLength(headers[i]) && ContentLength(headers[i].value).Some?
    ensures FirstLength(headers, n).Some?
  {
    if i < n - 1 {
      FirstLengthSeen(headers, i, n - 1);
    }
  }

  lemma NamesDiffer(header: Header)
    ensures Named(header, "transfer-encoding") ==> !Named(header, "content-length") && !Named(header, "upgrade")
    ensures Named(header, "content-length") ==> !Named(header, "upgrade")
  {
    assert |Lower("transfer-encoding")| == 17 && |Lower("content-length")| == 14 && |Lower("upgrade")| == 7;
  }

  /** What the loop of `inspect_head` has learnt. */
  datatype Framing = Framing(
    transferEncoding: bool, lengthPresent: bool, length: Option<nat>, invalidLength: bool, upgrade: bool)

  ghost predicate FramingOf(headers: seq<Header>, n: nat, f: Framing)
    requires n <= |headers|
  {
    && f.transferEncoding == HasWithin(headers, n, "transfer-encoding")
    && f.lengthPresent == HasWithin(headers, n, "content-length")
    && f.upgrade == HasWithin(headers, n, "upgrade")
    && f.length == FirstLength(headers, n)
    && f.invalidLength == !LengthsAgree(headers, n)
  }

  /** One iteration of that loop. */
  method NextField(headers: seq<Header>, n: nat, f: Framing) returns (g: Framing)
    requires n < |headers| && FramingOf(headers, n, f)
    ensures FramingOf(headers, n + 1, g)
  {
    NamesDiffer(headers[n]);
    LengthsAgreeStep(headers, n);
    HasWithinStep(headers, n, "transfer-encoding");
    HasWithinStep(headers, n, "content-length");
    HasWithinStep(headers, n, "upgrade");
    g := f;
    if Named(headers[n], "transfer-encoding") {
      g := f.(transferEncoding := true);
    } else if Named(headers[n], "content-length") {
      var parsed := ParseContentLength(headers[n].value);
      if parsed.Some? && (f.length.None? || f.length == parsed) {
        g := f.(lengthPresent := true, length := parsed);
      } else {
        g := f.(lengthPresent := true, invalidLength := true);
      }
    } else if Named(headers[n], "upgrade") {
      g := f.(upgrade := true);
    }
  }

  /** The loop of `inspect_head` over the fields. */
  method Classify(verb: string, headers: seq<Header>) returns (verdict: Verdict, body: nat)
    ensures verdict == HeadVerdict(verb, headers) && body == BodyLength(headers)
  {
    var f := Framing(false, false, None, false, false);
    for i := 0 to |headers|
      invariant FramingOf(headers, i, f)
    {
      f := NextField(headers, i, f);
    }
    verdict := if f.transferEncoding && f.lengthPresent then Ambiguous
      else if f.transferEncoding || f.upgrade || EqualIgnoringCase(verb, "CONNECT") || f.invalidLength then Terminal
      else Persistent;
    body := match f.length case Some(n) => n case None => 0;
  }

  /** All Content-Length values can be decoded, to one length. */
  ghost predicate OneLength(headers: seq<Header>) {
    && (forall i :: 0 <= i < |headers| && Named(headers[i], "content-length") ==>
          ContentLength(headers[i].value).Some?)
    && (forall i, j :: 0 <= i < |headers| && 0 <= j < |headers|
                       && Named(headers[i], "content-length") && Named(headers[j], "content-length") ==>
          ContentLength(headers[i].value) == ContentLength(headers[j].value))
  }

  ghost predicate SomeField(headers: seq<Header>, name: string) {
    exists i :: 0 <= i < |headers| && EqualIgnoringCase(headers[i].name, name)
  }

  /** What each verdict says of the fields of the head. */
  lemma VerdictIff(verb: string, headers: seq<Header>)
    ensures HeadVerdict(verb, headers) == Ambiguous
       <==> SomeField(headers, "transfer-encoding") && SomeField(headers, "content-length")
    ensures HeadVerdict(verb, headers) == Persistent
       <==> && !SomeField(headers, "transfer-encoding") && !SomeField(headers, "upgrade")
            && !EqualIgnoringCase(verb, "CONNECT") && OneLength(headers)
    ensures HeadVerdict(verb, headers) == Terminal
       <==> && !(SomeField(headers, "transfer-encoding") && SomeField(headers, "content-length"))
            && (|| SomeField(headers, "transfer-encoding") || SomeField(headers, "upgrade")
                || EqualIgnoringCase(verb, "CONNECT") || !OneLength(headers))
  {
    SomeFieldIs(headers, "transfer-encoding");
    SomeFieldIs(headers, "content-length");
    SomeFieldIs(headers, "upgrade");
    OneLengthIs(headers);
  }

  lemma SomeFieldIs(headers: seq<Header>, name: string)
    ensures SomeField(headers, name) <==> Has(headers, name)
  {
  }

  lemma OneLengthIs(headers: seq<Header>)
    ensures OneLength(headers) <==> LengthsAgree(headers, |headers|)
  {
    if OneLength(headers) {
      FirstLengthIsOne(headers, |headers|);
    }
  }

  /** The first length is that of some field. */
  lemma {:induction false} FirstLengthIsOne(headers: seq<Header>, n: nat)
    requires n <= |headers| && OneLength(headers)
    ensures forall i :: 0 <= i < n && IsLength(headers[i]) ==>
              FirstLength(headers, n) == ContentLength(headers[i].value)
    ensures FirstLength(headers, n).Some? ==>
              exists i :: 0 <= i < n && IsLength(headers[i])
                          && FirstLength(headers, n) == ContentLength(headers[i].value)
  {
    if n > 0 {
      FirstLengthIsOne(headers, n - 1);
    }
  }

  /** A persistent head has exactly the body its Content-Length fields all give
      (none: no body), and no other framing. */
  lemma PersistentFraming(verb: string, headers: seq<Header>)
    requires HeadVerdict(verb, headers) == Persistent
    ensures !Has(headers, "transfer-encoding") && !Has(headers, "upgrade")
    ensures forall i :: 0 <= i < |headers| && IsLength(headers[i]) ==>
              ContentLength(headers[i].value) == Some(BodyLength(headers))
    ensures !Has(headers, "content-length") ==> BodyLength(headers) == 0
    ensures BodyLength(headers) <= MAX_DECODABLE_LENGTH
  {
    FirstLengthBound(headers, |headers|);
  }

  lemma {:induction false} FirstLengthBound(headers: seq<Header>, n: nat)
    requires n <= |headers|
    ensures FirstLength(headers, n).Some? ==>
              FirstLength(headers, n).value <= MAX_DECODABLE_LENGTH
              && exists i :: 0 <= i < n && IsLength(headers[i])
  {
    if n > 0 {
      FirstLengthBound(headers, n - 1);
    }
  }

  // ------------------------------------------------------------------ inspection

  /** The framing of a parsed head. */
  function Framed(r: Parsed): HeadParse {
    match r
    case Complete(length, verb, headers) => CompleteHead(length, HeadVerdict(verb, headers), BodyLength(headers))
    case Partial => PartialHead
    case Invalid => InvalidHead
  }

  /** `inspect_head` over a given parser library. */
  function InspectWith(library: Library): Parser {
    bytes => Framed(library(bytes))
  }

  method InspectHead(library: Library, bytes: string) returns (r: HeadParse)
    ensures r == InspectWith(library)(bytes)
  {
    match library(bytes) {
      case Complete(length, verb, headers) =>
        var verdict, body := Classify(verb, headers);
        r := CompleteHead(length, verdict, body);
      case Partial => r := PartialHead;
      case Invalid => r := InvalidHead;
    }
  }

  function ShiftParsed(r: Parsed, n: nat): Parsed {
    if r.Complete? then r.(length := r.length + n) else r
  }

  /** What is assumed of the parser library: a complete head is not empty; a
      decided result is not changed by later bytes; leading blank lines only
      shift the length; past them an empty line decides the head, and only an
      empty line within it completes it. */
  ghost predicate LibraryLaws(library: Library) {
    && library("") == Partial
    && (forall b :: library(b).Complete? ==> 0 < library(b).length <= |b|)
    && (forall b, x :: LibraryStable(library, b, x))
    && (forall b :: LibrarySkips(library, b))
    && (forall b :: LibraryEnds(library, b))
  }

  ghost predicate LibraryStable(library: Library, b: string, x: string) {
    !library(b).Partial? ==> library(b + x) == library(b)
  }

  ghost predicate LibrarySkips(library: Library, b: string) {
    library("\n" + b) == ShiftParsed(library(b), 1) && library("\r\n" + b) == ShiftParsed(library(b), 2)
  }

  ghost predicate LibraryEnds(library: Library, b: string) {
    Blank(b) == 0 ==>
      && (HasTerminator(b, 0) ==> !library(b).Partial?)
      && (library(b).Complete? && library(b).length <= |b| ==> HasTerminator(b[..library(b).length], 0))
  }

  lemma FramedShift(r: Parsed, n: nat)
    ensures Framed(ShiftParsed(r, n)) == Shift(Framed(r), n)
  {
  }

  /** Framing keeps what kind of result it is, and the length. */
  lemma FramedKind(r: Parsed)
    ensures Framed(r).PartialHead? == r.Partial? && Framed(r).CompleteHead? == r.Complete?
    ensures r.Complete? ==> Framed(r).length == r.length
  {
  }

  lemma FramedLaws(library: Library, p: Parser, b: string)
    requires p(b) == Framed(library(b))
    requires p("\n" + b) == Framed(library("\n" + b)) && p("\r\n" + b) == Framed(library("\r\n" + b))
    requires library(b).Complete? ==> 0 < library(b).length <= |b|
    requires LibrarySkips(library, b) && LibraryEnds(library, b)
    ensures CompleteFits(p, b) && SkipsBlankLines(p, b) && EndsAtTerminator(p, b)
  {
    FramedKind(library(b));
    FramedShift(library(b), 1);
    FramedShift(library(b), 2);
  }

  lemma FramedStable(library: Library, p: Parser, b: string, x: string)
    requires p(b) == Framed(library(b)) && p(b + x) == Framed(library(b + x)) && LibraryStable(library, b, x)
    ensures Stable(p, b, x)
  {
    FramedKind(library(b));
  }

  /** The laws carry over to the framed results. */
  lemma LibraryGivesLawful(library: Library)
    requires LibraryLaws(library)
    ensures Lawful(InspectWith(library))
  {
    var p := InspectWith(library);
    forall b, x ensures Stable(p, b, x) {
      FramedStable(library, p, b, x);
    }
    forall b ensures CompleteFits(p, b) && SkipsBlankLines(p, b) && EndsAtTerminator(p, b) {
      FramedLaws(library, p, b);
    }
  }
}
