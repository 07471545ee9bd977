/**
 Byte strings. A Rust `str` is modelled by its UTF-8 bytes: a Dafny `string`
 whose characters are below 256. Only the operations that look inside text
 (percent coding, trimming, control characters) care about the encoding.
 */
module Text {

  ghost predicate IsBytes(s: string) {
    forall i :: 0 <= i < |s| ==> s[i] as int < 256
  }

  type ByteString = s: string | IsBytes(s) witness ""

  function Byte(n: int): char
    requires 0 <= n < 256
  {
    n as char
  }

  // ------------------------------------------------------------------- ASCII

  predicate IsDigit(c: char) {
    '0' <= c <= '9'
  }

  predicate IsAlphanumeric(c: char) {
    IsDigit(c) || 'a' <= c <= 'z' || 'A' <= c <= 'Z'
  }

  function LowerChar(c: char): char {
    if 'A' <= c <= 'Z' then (c as int + 32) as char else c
  }

  function Lower(s: string): string {
    seq(|s|, i requires 0 <= i < |s| => LowerChar(s[i]))
  }

  predicate EqualIgnoringCase(a: string, b: string) {
    Lower(a) == Lower(b)
  }

  /** A header or token byte of section 5.6.2 of RFC 9110. */
  predicate IsTokenByte(c: char) {
    IsAlphanumeric(c)
    || c in {'!', '#', '$', '%', '&', '\'', '*', '+', '-', '.', '^', '_', '`', '|', '~'}
  }

  // ---------------------------------------------------------------- decimals

  const U64_MAX: nat := 0xFFFF_FFFF_FFFF_FFFF

  predicate AllDigits(s: string) {
    forall i :: 0 <= i < |s| ==> IsDigit(s[i])
  }

  function DigitValue(c: char): (n: nat)
    requires IsDigit(c)
    ensures n < 10
  {
    c as int - '0' as int
  }

  function Decimal(digits: string): nat
    requires AllDigits(digits)
  {
    if digits == "" then 0 else 10 * Decimal(digits[..|digits| - 1]) + DigitValue(digits[|digits| - 1])
  }

  lemma {:induction false} DecimalMonotone(s: string, i: nat)
    requires AllDigits(s) && i <= |s|
    ensures AllDigits(s[..i]) && Decimal(s[..i]) <= Decimal(s)
  {
    if i < |s| {
      var front := s[..|s| - 1];
      DecimalMonotone(front, i);
      assert front[..i] == s[..i];
    } else {
      assert s[..i] == s;
    }
  }

  function ToDecimal(n: nat): (s: string)
    ensures s != "" && AllDigits(s) && Decimal(s) == n
  {
    var last := [(n % 10 + '0' as int) as char];
    if n < 10 then
      assert last[..0] == "";
      last
    else
      var front := ToDecimal(n / 10);
      assert (front + last)[..|front|] == front;
      front + last
  }

  // ------------------------------------------------------------------- UTF-8

  predicate Continuation(c: char) {
    0x80 <= c as int < 0xC0
  }

  /** The length of the well-formed character at the front, or 0 (section 4 of RFC 3629). */
  function FirstChar(s: string): (n: nat)
    ensures n <= |s|
  {
    if s == "" then 0
    else
      var b := s[0] as int;
      if b < 0x80 then 1
      else if |s| >= 2 && 0xC2 <= b < 0xE0 && Continuation(s[1]) then 2
      else if |s| >= 3 && 0xE0 <= b < 0xF0 && Continuation(s[1]) && Continuation(s[2])
              && (b == 0xE0 ==> s[1] as int >= 0xA0) && (b == 0xED ==> s[1] as int < 0xA0) then 3
      else if |s| >= 4 && 0xF0 <= b < 0xF5 && Continuation(s[1]) && Continuation(s[2]) && Continuation(s[3])
              && (b == 0xF0 ==> s[1] as int >= 0x90) && (b == 0xF4 ==> s[1] as int < 0x90) then 4
      else 0
  }

  predicate ValidUtf8(s: string) {
    s == "" || (FirstChar(s) > 0 && ValidUtf8(s[FirstChar(s)..]))
  }

  lemma FirstCharStable(a: string, b: string)
    requires FirstChar(a) > 0
    ensures FirstChar(a + b) == FirstChar(a)
  {
  }

  lemma {:induction false} Utf8Concat(a: string, b: string)
    requires ValidUtf8(a) && ValidUtf8(b)
    ensures ValidUtf8(a + b)
  {
    if a == "" {
      assert a + b == b;
    } else {
      var n := FirstChar(a);
      FirstCharStable(a, b);
      Utf8Concat(a[n..], b);
      assert (a + b)[n..] == a[n..] + b;
    }
  }

  /** Well-formed text splits at an ASCII byte into well-formed text. */
  lemma {:induction false} Utf8SplitAt(a: string, c: char, b: string)
    requires c as int < 0x80 && ValidUtf8(a + [c] + b)
    ensures ValidUtf8(a) && ValidUtf8(b)
  {
    var whole := a + [c] + b;
    if a == "" {
      assert whole[1..] == b;
    } else {
      var n := FirstChar(whole);
      assert whole[|a|] == c;
      assert n <= |a|;
      assert FirstChar(a) == n;
      assert whole[n..] == a[n..] + [c] + b;
      Utf8SplitAt(a[n..], c, b);
    }
  }

  lemma {:induction false} AsciiIsUtf8(s: string)
    requires forall i :: 0 <= i < |s| ==> s[i] as int < 0x80
    ensures ValidUtf8(s)
  {
    if s != "" {
      AsciiIsUtf8(s[1..]);
    }
  }

  /** A control character starts at position `i`: U+0000 to U+001F, or U+007F to U+009F. */
  predicate ControlAt(s: string, i: nat)
    requires i < |s|
  {
    || s[i] as int < 0x20
    || s[i] as int == 0x7F
    || (s[i] as int == 0xC2 && i + 1 < |s| && 0x80 <= s[i + 1] as int < 0xA0)
  }

  predicate HasControl(s: string) {
    exists i :: 0 <= i < |s| && ControlAt(s, i)
  }

  lemma ControlConcat(a: string, c: char, b: string)
    requires 0x20 <= c as int < 0x7F
    ensures HasControl(a + [c] + b) <==> HasControl(a) || HasControl(b)
  {
    var whole := a + [c] + b;
    if HasControl(a) {
      var i :| 0 <= i < |a| && ControlAt(a, i);
      assert ControlAt(whole, i);
    }
    if HasControl(b) {
      var i :| 0 <= i < |b| && ControlAt(b, i);
      assert ControlAt(whole, |a| + 1 + i);
    }
    if HasControl(whole) {
      var i :| 0 <= i < |whole| && ControlAt(whole, i);
      if i < |a| {
        assert ControlAt(a, i);
      } else {
        assert i > |a|;
        assert ControlAt(b, i - |a| - 1);
      }
    }
  }

  // -------------------------------------------------------------- whitespace

  predicate IsAsciiSpace(c: char) {
    9 <= c as int <= 13 || c == ' '
  }

  /** The three-byte white-space characters of Unicode. */
  predicate IsWideSpace(a: char, b: char, c: char) {
    var x, y, z := a as int, b as int, c as int;
    || (x == 0xE1 && y == 0x9A && z == 0x80)
    || (x == 0xE2 && y == 0x80 && (0x80 <= z <= 0x8A || z == 0xA8 || z == 0xA9 || z == 0xAF))
    || (x == 0xE2 && y == 0x81 && z == 0x9F)
    || (x == 0xE3 && y == 0x80 && z == 0x80)
  }

  /** The length of the white-space character at the front, or 0. */
  function SpaceAhead(s: string): (n: nat)
    ensures n <= |s|
  {
    if |s| >= 1 && IsAsciiSpace(s[0]) then 1
    else if |s| >= 2 && s[0] as int == 0xC2 && s[1] as int in {0x85, 0xA0} then 2
    else if |s| >= 3 && IsWideSpace(s[0], s[1], s[2]) then 3
    else 0
  }

  /** The length of the white-space character at the end, or 0. */
  function SpaceBehind(s: string): (n: nat)
    ensures n <= |s|
  {
    var k := |s|;
    if k >= 1 && IsAsciiSpace(s[k - 1]) then 1
    else if k >= 2 && s[k - 2] as int == 0xC2 && s[k - 1] as int in {0x85, 0xA0} then 2
    else if k >= 3 && IsWideSpace(s[k - 3], s[k - 2], s[k - 1]) then 3
    else 0
  }

  function TrimStart(s: string): (r: string)
    ensures SpaceAhead(r) == 0
  {
    if SpaceAhead(s) == 0 then s else TrimStart(s[SpaceAhead(s)..])
  }

  function TrimEnd(s: string): (r: string)
    ensures SpaceBehind(r) == 0
    decreases |s|
  {
    if SpaceBehind(s) == 0 then s else TrimEnd(s[..|s| - SpaceBehind(s)])
  }

  function Trim(s: string): string {
    TrimEnd(TrimStart(s))
  }

  // --------------------------------------------------------------- splitting

  /** Splits at every `sep`; the result is never empty. */
  function Split(s: string, sep: char): (r: seq<string>)
    ensures r != []
  {
    if s == "" then [""]
    else
      var rest := Split(s[1..], sep);
      if s[0] == sep then [""] + rest else [[s[0]] + rest[0]] + rest[1..]
  }

  function NonEmpty(pieces: seq<string>): seq<string> {
    if pieces == [] then []
    else (if pieces[0] == "" then [] else [pieces[0]]) + NonEmpty(pieces[1..])
  }

  ghost predicate Free(sep: char, s: string) {
    sep !in s
  }

  lemma {:induction false} SplitFree(s: string, sep: char)
    requires Free(sep, s)
    ensures Split(s, sep) == [s]
  {
    if s != "" {
      SplitFree(s[1..], sep);
      assert s == [s[0]] + s[1..];
    }
  }

  lemma {:induction false} SplitFirst(a: string, sep: char, b: string)
    requires Free(sep, a)
    ensures Split(a + [sep] + b, sep) == [a] + Split(b, sep)
  {
    var whole := a + [sep] + b;
    if a == "" {
      assert whole[1..] == b;
    } else {
      assert whole[1..] == a[1..] + [sep] + b;
      SplitFirst(a[1..], sep, b);
      assert a == [a[0]] + a[1..];
    }
  }

  /** Each part preceded by a slash. */
  function Slashed(parts: seq<string>): string {
    if parts == [] then "" else "/" + parts[0] + Slashed(parts[1..])
  }

  lemma {:induction false} SlashedConcat(a: seq<string>, b: seq<string>)
    ensures Slashed(a + b) == Slashed(a) + Slashed(b)
  {
    if a == [] {
      assert a + b == b;
    } else {
      SlashedConcat(a[1..], b);
      assert (a + b)[1..] == a[1..] + b;
    }
  }

  lemma {:induction false} SplitSlashed(first: string, parts: seq<string>)
    requires Free('/', first)
    requires forall i :: 0 <= i < |parts| ==> Free('/', parts[i])
    ensures Split(first + Slashed(parts), '/') == [first] + parts
    decreases |parts|
  {
    if parts == [] {
      assert first + Slashed(parts) == first;
      SplitFree(first, '/');
    } else {
      var rest := parts[0] + Slashed(parts[1..]);
      assert first + Slashed(parts) == first + ['/'] + rest;
      SplitSlashed(parts[0], parts[1..]);
      SplitFirst(first, '/', rest);
    }
  }

  lemma {:induction false} NonEmptyKeeps(parts: seq<string>)
    requires forall i :: 0 <= i < |parts| ==> parts[i] != ""
    ensures NonEmpty(parts) == parts
  {
    if parts != [] {
      NonEmptyKeeps(parts[1..]);
    }
  }

  lemma NonEmptyStep(piece: string, rest: seq<string>)
    ensures NonEmpty([piece] + rest) == (if piece == "" then [] else [piece]) + NonEmpty(rest)
  {
    assert ([piece] + rest)[1..] == rest;
  }

  lemma {:induction false} NonEmptyConcat(a: seq<string>, b: seq<string>)
    ensures NonEmpty(a + b) == NonEmpty(a) + NonEmpty(b)
  {
    if a == [] {
      assert a + b == b;
    } else {
      var piece, rest := a[0], a[1..];
      NonEmptyConcat(rest, b);
      NonEmptyStep(piece, rest);
      NonEmptyStep(piece, rest + b);
      assert a == [piece] + rest && a + b == [piece] + (rest + b);
    }
  }

  /** A property that survives cutting at the separator holds of every piece. */
  lemma {:induction false} SplitPieces(s: string, sep: char)
    ensures forall i :: 0 <= i < |Split(s, sep)| ==> Free(sep, Split(s, sep)[i])
    ensures IsBytes(s) ==> forall i :: 0 <= i < |Split(s, sep)| ==> IsBytes(Split(s, sep)[i])
  {
    if s != "" {
      SplitPieces(s[1..], sep);
    }
  }
}
