/**
 Protocol detection stated on the bytes a client sends: the connection preface,
 then a frame laid out as in section 4.1 of RFC 9113 (src/app/server.rs).
 */
module PrefaceLaws {
  import opened Basics
  import opened Text
  import opened Preface

  const PREFACE_TEXT := "PRI * HTTP/2.0\r\n\r\nSM\r\n\r\n"

  lemma PrefaceIs()
    ensures HTTP2_PREFACE == PREFACE_TEXT && |PREFACE_TEXT| == PREFACE_BYTES
  {
  }

  /** The fields of a frame header. */
  datatype Frame = Frame(length: nat, kind: nat, flags: nat, reserved: bool, stream: nat)

  predicate FrameOk(f: Frame) {
    f.length < 0x100_0000 && f.kind < 0x100 && f.flags < 0x100 && f.stream < 0x8000_0000
  }

  /** Three bytes of length, the type, the flags, and four bytes of stream. */
  function FrameHeader(f: Frame): (s: string)
    requires FrameOk(f)
    ensures |s| == FRAME_HEADER_BYTES
  {
    [Byte(f.length / 0x1_0000), Byte(f.length / 0x100 % 0x100), Byte(f.length % 0x100), Byte(f.kind), Byte(f.flags),
     Byte((if f.reserved then 0x80 else 0) + f.stream / 0x100_0000), Byte(f.stream / 0x1_0000 % 0x100),
     Byte(f.stream / 0x100 % 0x100), Byte(f.stream % 0x100)]
  }

  /** A first frame that a client may send: SETTINGS, not an acknowledgement, on
      stream 0, whole settings of six bytes, within the limit. */
  predicate IsSettings(f: Frame) {
    f.kind == 4 && f.flags % 2 == 0 && f.stream == 0 && f.length % 6 == 0 && f.length <= 16384
  }

  /** Numbers of three and four bytes, most significant first. */
  lemma ThreeBytes(n: nat)
    requires n < 0x100_0000
    ensures n == n / 0x1_0000 * 0x1_0000 + n / 0x100 % 0x100 * 0x100 + n % 0x100
  {
  }

  lemma FourBytes(n: nat)
    requires n < 0x8000_0000
    ensures n == n / 0x100_0000 * 0x100_0000 + n / 0x1_0000 % 0x100 * 0x1_0000 + n / 0x100 % 0x100 * 0x100 + n % 0x100
  {
  }

  lemma FromThree(a: nat, b: nat, c: nat)
    requires a < 0x100 && b < 0x100 && c < 0x100
    ensures var n := a * 0x1_0000 + b * 0x100 + c;
            n < 0x100_0000 && n / 0x1_0000 == a && n / 0x100 % 0x100 == b && n % 0x100 == c
  {
  }

  lemma FromFour(a: nat, b: nat, c: nat, d: nat)
    requires a < 0x80 && b < 0x100 && c < 0x100 && d < 0x100
    ensures var n := a * 0x100_0000 + b * 0x1_0000 + c * 0x100 + d;
            && n < 0x8000_0000 && n / 0x100_0000 == a && n / 0x1_0000 % 0x100 == b
            && n / 0x100 % 0x100 == c && n % 0x100 == d
  {
    var n := a * 0x100_0000 + b * 0x1_0000 + c * 0x100 + d;
    assert n / 0x100 == a * 0x1_0000 + b * 0x100 + c;
    assert n / 0x1_0000 == a * 0x100 + b;
  }

  lemma FrameRead(f: Frame)
    requires FrameOk(f)
    ensures PayloadLength(FrameHeader(f)) == f.length && StreamId(FrameHeader(f)) == f.stream
    ensures IsInitialSettings(FrameHeader(f)) <==> IsSettings(f)
  {
    ThreeBytes(f.length);
    FourBytes(f.stream);
    TopByte(f.reserved, f.stream / 0x100_0000);
  }

  lemma TopByte(reserved: bool, top: nat)
    requires top < 0x80
    ensures ((if reserved then 0x80 else 0) + top) % 0x80 == top
  {
  }

  /** Any nine bytes are the header of some frame. */
  lemma FrameOf(s: string) returns (f: Frame)
    requires |s| == FRAME_HEADER_BYTES && IsBytes(s)
    ensures FrameOk(f) && FrameHeader(f) == s
  {
    FromThree(s[0] as int, s[1] as int, s[2] as int);
    FromFour(s[5] as int % 0x80, s[6] as int, s[7] as int, s[8] as int);
    f := Frame(PayloadLength(s), s[3] as int, s[4] as int, s[5] as int >= 0x80, StreamId(s));
    LowBits(s[5] as int);
  }

  lemma LowBits(n: nat)
    requires n < 0x100
    ensures (if n >= 0x80 then 0x80 else 0) + n % 0x80 == n
  {
  }

  // ------------------------------------------------------------- the outcomes

  lemma StartsWith(rest: string)
    ensures (PREFACE_TEXT + rest)[..PREFACE_BYTES] == PREFACE_TEXT && (PREFACE_TEXT + rest)[PREFACE_BYTES..] == rest
  {
    PrefaceIs();
  }

  /** After the preface, the first frame decides. */
  lemma FrameDecides(f: Frame, payload: string)
    requires FrameOk(f)
    ensures Inspect(PREFACE_TEXT + (FrameHeader(f) + payload))
         == if !IsSettings(f) then Err(InvalidSettings)
            else Ok(if f.length <= |payload| then Complete else Pending)
  {
    PrefaceIs();
    var rest := FrameHeader(f) + payload;
    var bytes := PREFACE_TEXT + rest;
    StartsWith(rest);
    FrameRead(f);
    assert bytes[PREFACE_BYTES..PREFACE_BYTES + FRAME_HEADER_BYTES] == bytes[PREFACE_BYTES..][..FRAME_HEADER_BYTES];
    assert rest[..FRAME_HEADER_BYTES] == FrameHeader(f);
  }

  /** The start of the preface, or the preface and the start of a frame header,
      decides nothing. */
  lemma StartIsPending(bytes: string)
    requires bytes <= PREFACE_TEXT || (PREFACE_TEXT <= bytes && |bytes| < PREFACE_BYTES + FRAME_HEADER_BYTES)
    ensures Inspect(bytes) == Ok(Pending)
  {
    PrefaceIs();
    if |bytes| >= PREFACE_BYTES {
      assert bytes[..PREFACE_BYTES] == PREFACE_TEXT;
    }
  }

  /** Anything else is not HTTP/2. */
  lemma OtherwiseNot(bytes: string)
    requires !(bytes <= PREFACE_TEXT) && !(PREFACE_TEXT <= bytes)
    ensures Inspect(bytes) == Ok(NotHttp2)
  {
    PrefaceIs();
  }

  // --------------------------------------------------------------- the results

  lemma DecidedAtEnd(stream: string, expected: Expected)
    requires Decisive(stream)
    ensures Detected(stream, expected) == Verdict(Inspect(stream), expected)
  {
    assert stream[..|stream|] == stream;
    AnyDecisive(stream, |stream|, expected);
  }

  /** A client that sends the preface and a whole first frame. */
  lemma PrefaceDetected(f: Frame, payload: string, expected: Expected)
    requires FrameOk(f) && f.length <= |payload|
    ensures Detected(PREFACE_TEXT + (FrameHeader(f) + payload), expected)
         == if !IsSettings(f) then Err(InvalidSettings)
            else if expected == ExpectHttp1 then Err(ProtocolMismatch) else Ok(Http2)
  {
    FrameDecides(f, payload);
    DecidedAtEnd(PREFACE_TEXT + (FrameHeader(f) + payload), expected);
  }

  /** A client that sends anything else. */
  lemma OtherDetected(stream: string, expected: Expected)
    requires !(stream <= PREFACE_TEXT) && !(PREFACE_TEXT <= stream)
    ensures Detected(stream, expected) == if expected == ExpectHttp2 then Err(ProtocolMismatch) else Ok(Http1)
  {
    OtherwiseNot(stream);
    DecidedAtEnd(stream, expected);
  }

  /** A client that stops within the preface or its first frame. */
  lemma CutShortDetected(stream: string, expected: Expected)
    requires Inspect(stream) == Ok(Pending)
    ensures Detected(stream, expected)
         == if expected == ExpectHttp2 || (stream != "" && stream <= PREFACE_TEXT) then Err(UnexpectedEof)
            else Ok(Http1)
  {
    PrefaceIs();
    PendingThroughout(stream);
  }
}
