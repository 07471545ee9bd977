/**
 Protocol detection on a new connection and the replay of the bytes it
 consumed (src/app/server.rs, sections 3.4 and 6.5 of RFC 9113).
 */
module Preface {
  import opened Basics
  import opened Text

  const HTTP2_PREFACE := "PRI * HTTP/2.0\r\n\r\nSM\r\n\r\n"
  const PREFACE_BYTES: nat := 24
  const FRAME_HEADER_BYTES: nat := 9
  const MAX_INITIAL_SETTINGS_BYTES: nat := 16 * 1024
  const MAX_PREFACE_BYTES: nat := PREFACE_BYTES + FRAME_HEADER_BYTES + MAX_INITIAL_SETTINGS_BYTES
  const SETTINGS_FRAME := 4
  const CHUNK_BYTES: nat := 4096

  datatype Expected = Auto | ExpectHttp1 | ExpectHttp2

  datatype Protocol = Http1 | Http2

  datatype PrefaceState = Pending | Complete | NotHttp2

  datatype DetectError = InvalidSettings | ProtocolMismatch | PrefaceTooLarge | UnexpectedEof

  /** What the bytes so far say; the first frame must be a SETTINGS frame that
      is not an acknowledgement, on stream 0, of whole settings, small enough. */
  function Inspect(bytes: string): Result<PrefaceState, DetectError> {
    if |bytes| < PREFACE_BYTES then
      Ok(if bytes <= HTTP2_PREFACE then Pending else NotHttp2)
    else if bytes[..PREFACE_BYTES] != HTTP2_PREFACE then Ok(NotHttp2)
    else if |bytes| < PREFACE_BYTES + FRAME_HEADER_BYTES then Ok(Pending)
    else
      var frame := bytes[PREFACE_BYTES..PREFACE_BYTES + FRAME_HEADER_BYTES];
      if !IsInitialSettings(frame) then Err(InvalidSettings)
      else Ok(if |bytes| >= PREFACE_BYTES + FRAME_HEADER_BYTES + PayloadLength(frame) then Complete else Pending)
  }

  function PayloadLength(frame: string): nat
    requires |frame| == FRAME_HEADER_BYTES
  {
    frame[0] as int * 0x1_0000 + frame[1] as int * 0x100 + frame[2] as int
  }

  /** The stream identifier, without its reserved high bit. */
  function StreamId(frame: string): nat
    requires |frame| == FRAME_HEADER_BYTES
  {
    (frame[5] as int % 0x80) * 0x100_0000 + frame[6] as int * 0x1_0000 + frame[7] as int * 0x100 + frame[8] as int
  }

  predicate IsInitialSettings(frame: string)
    requires |frame| == FRAME_HEADER_BYTES
  {
    && frame[3] as int == SETTINGS_FRAME
    && frame[4] as int % 2 == 0
    && StreamId(frame) == 0
    && PayloadLength(frame) % 6 == 0
    && PayloadLength(frame) <= MAX_INITIAL_SETTINGS_BYTES
  }

  predicate Decisive(bytes: string) {
    Inspect(bytes) != Ok(Pending)
  }

  lemma PrefaceLength()
    ensures |HTTP2_PREFACE| == PREFACE_BYTES
  {
  }

  /** A decisive outcome is not changed by further bytes. */
  lemma DecisiveStable(bytes: string, more: string)
    requires Decisive(bytes)
    ensures Inspect(bytes + more) == Inspect(bytes)
  {
    PrefaceLength();
    var all := bytes + more;
    if |bytes| < PREFACE_BYTES {
      var k := Mismatch(bytes, HTTP2_PREFACE);
      if |all| < PREFACE_BYTES {
        assert all[k] == bytes[k];
      } else {
        assert all[..PREFACE_BYTES][k] == bytes[k];
      }
    } else {
      assert all[..PREFACE_BYTES] == bytes[..PREFACE_BYTES];
      if |bytes| >= PREFACE_BYTES + FRAME_HEADER_BYTES {
        assert all[PREFACE_BYTES..PREFACE_BYTES + FRAME_HEADER_BYTES]
            == bytes[PREFACE_BYTES..PREFACE_BYTES + FRAME_HEADER_BYTES];
      }
    }
  }

  lemma {:induction false} Mismatch(a: string, b: string) returns (k: nat)
    requires |a| <= |b| && !(a <= b)
    ensures k < |a| && a[k] != b[k]
  {
    if a[0] != b[0] {
      k := 0;
    } else {
      var j := Mismatch(a[1..], b[1..]);
      k := j + 1;
    }
  }

  /** Pending bytes never fill the buffer, so they are never too large. */
  lemma PendingIsShort(bytes: string)
    requires Inspect(bytes) == Ok(Pending)
    ensures |bytes| < MAX_PREFACE_BYTES
  {
  }

  // -------------------------------------------------------- the decided result

  /** The first prefix of a stream that decides, if any. */
  ghost function FirstDecisive(stream: string, n: nat): (r: Option<nat>)
    requires n <= |stream|
    ensures r.Some? ==> n <= r.value <= |stream|
    decreases |stream| - n
  {
    if Decisive(stream[..n]) then Some(n)
    else if n == |stream| then None
    else FirstDecisive(stream, n + 1)
  }

  /** The result of detection as a function of the bytes and the end of the
      stream alone. */
  ghost function Detected(stream: string, expected: Expected): Result<Protocol, DetectError> {
    match FirstDecisive(stream, 0)
    case Some(n) => Verdict(Inspect(stream[..n]), expected)
    case None =>
      // End of stream while pending.
      if expected == ExpectHttp2 || (stream != "" && stream <= HTTP2_PREFACE) then Err(UnexpectedEof)
      else Ok(Http1)
  }

  function Verdict(outcome: Result<PrefaceState, DetectError>, expected: Expected): Result<Protocol, DetectError> {
    match outcome
    case Err(e) => Err(e)
    case Ok(Complete) => if expected == ExpectHttp1 then Err(ProtocolMismatch) else Ok(Http2)
    case Ok(NotHttp2) => if expected == ExpectHttp2 then Err(ProtocolMismatch) else Ok(Http1)
    case Ok(Pending) => Err(PrefaceTooLarge)
  }

  lemma {:induction false} FirstDecisiveIs(stream: string, n: nat)
    requires n <= |stream|
    ensures match FirstDecisive(stream, n)
            case Some(k) => Decisive(stream[..k])
            case None => forall k :: n <= k <= |stream| ==> !Decisive(stream[..k])
    decreases |stream| - n
  {
    if !Decisive(stream[..n]) && n < |stream| {
      FirstDecisiveIs(stream, n + 1);
    }
  }

  /** Any decisive prefix gives the result of the first one. */
  lemma AnyDecisive(stream: string, n: nat, expected: Expected)
    requires n <= |stream| && Decisive(stream[..n])
    ensures Detected(stream, expected) == Verdict(Inspect(stream[..n]), expected)
  {
    FirstDecisiveIs(stream, 0);
    var k := FirstDecisive(stream, 0).value;
    var lo, hi := if k <= n then k else n, if k <= n then n else k;
    assert stream[..hi] == stream[..lo] + stream[lo..hi];
    DecisiveStable(stream[..lo], stream[lo..hi]);
  }

  /** A pending stream has no decisive prefix. */
  lemma PendingThroughout(stream: string)
    requires !Decisive(stream)
    ensures FirstDecisive(stream, 0) == None
  {
    FirstDecisiveIs(stream, 0);
    if FirstDecisive(stream, 0).Some? {
      var k := FirstDecisive(stream, 0).value;
      assert stream == stream[..k] + stream[k..];
      DecisiveStable(stream[..k], stream[k..]);
    }
  }

  // ------------------------------------------------------------------- objects

  /** A socket: the bytes the peer will still send before it ends the stream.
      How many bytes one read returns is up to the network. */
  class Socket {
    var unread: string

    constructor (bytes: string)
      ensures unread == bytes
    {
      unread := bytes;
    }

    method Read(capacity: nat) returns (got: string)
      modifies this
      ensures old(unread) == got + unread && |got| <= capacity
      ensures got == "" <==> old(unread) == "" || capacity == 0
    {
      var most := if capacity <= |unread| then capacity else |unread|;
      if most == 0 {
        return "";
      }
      var n :| 1 <= n <= most;
      got, unread := unread[..n], unread[n..];
    }
  }

  /** Replays the bytes consumed by detection before reading on. */
  class PrefixedIo {
    const inner: Socket
    const prefix: string
    const protocol: Protocol
    var position: nat

    ghost predicate Valid()
      reads this
    {
      position <= |prefix|
    }

    /** Everything still to be delivered. */
    ghost function Remaining(): string
      reads this, inner
      requires Valid()
    {
      prefix[position..] + inner.unread
    }

    constructor (inner: Socket, prefix: string, protocol: Protocol)
      ensures Valid() && this.inner == inner && this.protocol == protocol && Remaining() == prefix + inner.unread
    {
      this.inner, this.prefix, this.protocol, position := inner, prefix, protocol, 0;
    }

    /** Delivers the next bytes of prefix and socket, once each and in order; an
        empty read with room to spare means the stream has ended. */
    method Read(capacity: nat) returns (got: string)
      requires Valid()
      modifies this, inner
      ensures Valid() && old(Remaining()) == got + Remaining() && |got| <= capacity
      ensures got == "" <==> old(Remaining()) == "" || capacity == 0
    {
      if position < |prefix| {
        var left := |prefix| - position;
        var length := if left <= capacity then left else capacity;
        got := prefix[position..position + length];
        position := position + length;
        return;
      }
      got := inner.Read(capacity);
    }
  }

  /** `inspect_connection`: whatever the sizes of the reads, the result is that
      of the stream, and the returned transport delivers the whole stream. */
  method InspectConnection(io: Socket, expected: Expected) returns (r: Result<PrefixedIo, DetectError>)
    modifies io
    ensures r.Err? ==> Detected(old(io.unread), expected) == Err(r.error)
    ensures r.Err? ==> r.error != PrefaceTooLarge
    ensures r.Ok? ==>
              && Detected(old(io.unread), expected) == Ok(r.value.protocol)
              && fresh(r.value) && r.value.inner == io && r.value.Valid()
              && r.value.Remaining() == old(io.unread)
  {
    ghost var stream := io.unread;
    var prefix := "";
    while true
      invariant stream == prefix + io.unread && |prefix| <= MAX_PREFACE_BYTES
      decreases |io.unread|
    {
      assert stream[..|prefix|] == prefix;
      if Decisive(prefix) {
        AnyDecisive(stream, |prefix|, expected);
      }
      var outcome := Inspect(prefix);
      if outcome.Err? {
        return Err(outcome.error);
      }
      match outcome.value {
        case Complete =>
          if expected == ExpectHttp1 {
            return Err(ProtocolMismatch);
          }
          var result := new PrefixedIo(io, prefix, Http2);
          return Ok(result);
        case Pending =>
          PendingIsShort(prefix);
          if |prefix| >= MAX_PREFACE_BYTES {
            assert false;  // pending bytes are never this many
          }
        case NotHttp2 =>
          if expected == ExpectHttp2 {
            return Err(ProtocolMismatch);
          }
          var result := new PrefixedIo(io, prefix, Http1);
          return Ok(result);
      }
      var room := MAX_PREFACE_BYTES - |prefix|;
      var got := io.Read(if room <= CHUNK_BYTES then room else CHUNK_BYTES);
      if got == "" {
        assert prefix + "" == prefix;
        PendingThroughout(stream);
        if expected == ExpectHttp2 || (prefix != "" && prefix <= HTTP2_PREFACE) {
          return Err(UnexpectedEof);
        }
        var result := new PrefixedIo(io, prefix, Http1);
        return Ok(result);
      }
      prefix := prefix + got;
    }
  }
}
