/**
 Whole runs of the head inspector: independence of read sizes, the heads its
 verdicts classify, and what the service does with them
 (src/app/http1.rs, src/app/server.rs).
 */
module Http1Runs {
  import opened Basics
  import opened Http1Head
  import opened Http1Machine

  // ----------------------------------------------------- one-shot reference

  /** The verdicts of a stream parsed in one go, with room for `room` more. */
  ghost function OneShot(p: Parser, max: nat, s: string, room: nat): seq<Verdict>
    requires Lawful(p)
    decreases |s|
  {
    if room == 0 then []
    else
      match p(s)
      case PartialHead => if |s| >= max then [Terminal] else []
      case InvalidHead => [Terminal]
      case CompleteHead(length, verdict, body) =>
        assert CompleteFits(p, s);
        if verdict == Persistent && length + body <= |s| then
          [Persistent] + OneShot(p, max, s[length + body..], room - 1)
        else [verdict]
  }

  ghost predicate FitsAt(p: Parser, max: nat, b: string) {
    var h := p(b);
    h.CompleteHead? && h.verdict != Terminal ==> h.length <= max
  }

  /** Every head reached within the queue's capacity whose verdict is not already
      terminal is at most `max` bytes long, leading blank lines included. */
  ghost predicate HeadsFit(p: Parser, max: nat, s: string) {
    forall log: seq<Verdict> :: |log| < MAX_PENDING_VERDICTS && Tail(p, s, log).Some? ==>
      FitsAt(p, max, Tail(p, s, log).value)
  }

  /** The front head is persistent and its body has arrived. */
  ghost predicate Continues(p: Parser, s: string) {
    var h := p(s);
    h.CompleteHead? && h.verdict == Persistent && h.length + h.body <= |s|
  }

  /** The stream after the front head and its body. */
  ghost function After(p: Parser, s: string): string
    requires Continues(p, s)
  {
    s[p(s).length + p(s).body..]
  }

  lemma OneShotStep(p: Parser, max: nat, s: string, room: nat)
    requires Lawful(p) && Continues(p, s) && room > 0
    ensures OneShot(p, max, s, room) == [Persistent] + OneShot(p, max, After(p, s), room - 1)
  {
  }

  lemma TailStep(p: Parser, s: string, log: seq<Verdict>)
    requires Tail(p, s, log).Some? && log != []
    ensures Continues(p, s) && log[0] == Persistent && Tail(p, s, log) == Tail(p, After(p, s), log[1..])
  {
  }

  lemma {:induction false} OneShotAfter(p: Parser, max: nat, s: string, log: seq<Verdict>, room: nat)
    requires Lawful(p) && Tail(p, s, log).Some? && |log| <= room
    ensures OneShot(p, max, s, room) == log + OneShot(p, max, Tail(p, s, log).value, room - |log|)
    decreases |log|
  {
    if log == [] {
      assert Tail(p, s, log).value == s;
    } else {
      TailStep(p, s, log);
      var rest := OneShot(p, max, Tail(p, s, log).value, room - |log|);
      assert OneShot(p, max, After(p, s), room - 1) == log[1..] + rest by {
        OneShotAfter(p, max, After(p, s), log[1..], room - 1);
      }
      assert OneShot(p, max, s, room) == [Persistent] + (log[1..] + rest) by {
        OneShotStep(p, max, s, room);
      }
      Prepend(log, rest);
    }
  }

  lemma Prepend(log: seq<Verdict>, rest: seq<Verdict>)
    requires log != [] && log[0] == Persistent
    ensures [Persistent] + (log[1..] + rest) == log + rest
  {
  }

  // ------------------------------------------------------------ sequences of reads

  function Concat(chunks: seq<string>): string {
    if chunks == [] then "" else chunks[0] + Concat(chunks[1..])
  }

  function Reads(p: Parser, max: nat, st: Inspector, chunks: seq<string>): (r: Inspector)
    requires Lawful(p) && QueueOk(st)
    ensures QueueOk(r) && r.taken == st.taken
    decreases |chunks|
  {
    if chunks == [] then st else Reads(p, max, Observe(p, max, st, chunks[0]), chunks[1..])
  }

  lemma {:induction false} ReadsTrack(p: Parser, max: nat, stream: string, st: Inspector, chunks: seq<string>)
    requires Lawful(p) && Tracks(p, max, stream, st)
    ensures Tracks(p, max, stream + Concat(chunks), Reads(p, max, st, chunks))
    decreases |chunks|
  {
    if chunks == [] {
      assert stream + Concat(chunks) == stream;
    } else {
      ObserveTracks(p, max, stream, st, chunks[0]);
      ReadsTrack(p, max, stream + chunks[0], Observe(p, max, st, chunks[0]), chunks[1..]);
      assert stream + chunks[0] + Concat(chunks[1..]) == stream + Concat(chunks);
    }
  }

  /** The head after `log` is short and has not been decided: it is malformed
      and its terminator has not arrived, or it is unfinished and only the blank
      lines in front of it bring it to `max` bytes. */
  ghost predicate Undecided(p: Parser, max: nat, s: string, log: seq<Verdict>) {
    && Tail(p, s, log).Some?
    && var b := Tail(p, s, log).value;
       && |Trimmed(b)| < max
       && (|| (p(b).InvalidHead? && !HasTerminator(Trimmed(b), 0))
           || (p(b).PartialHead? && max <= |b|))
  }

  /** The same verdicts, or all but the final `Terminal` of an undecided head. */
  ghost predicate Agrees(p: Parser, max: nat, s: string, log: seq<Verdict>, reference: seq<Verdict>) {
    log == reference || (log + [Terminal] == reference && Undecided(p, max, s, log))
  }

  /** An oversized head that turns out complete is longer than `max`. */
  lemma OversizeComplete(p: Parser, max: nat, b: string)
    requires Lawful(p) && Oversize(p, max, b) && p(b).CompleteHead?
    ensures max < p(b).length
  {
    var k :| 0 <= k <= |b| && max <= k && p(b[..k]).PartialHead?;
    CompletePrefix(p, b, k);
  }

  /** What has been logged without consuming any verdict. */
  lemma TracksAgrees(p: Parser, max: nat, s: string, st: Inspector)
    requires Lawful(p) && max > 0 && Tracks(p, max, s, st) && st.taken == 0
    requires HeadsFit(p, max, s)
    ensures Agrees(p, max, s, st.log, OneShot(p, max, s, MAX_PENDING_VERDICTS))
    ensures st.log == OneShot(p, max, s, MAX_PENDING_VERDICTS)
            || (st.state.Head? && |st.log| < MAX_PENDING_VERDICTS)
  {
    if st.state.Head? || (st.state.Passthrough? && Refused(p, s, st.log)) {
      OneShotAfter(p, max, s, st.log, MAX_PENDING_VERDICTS);
    } else if st.state.Body? {
      BodyAgrees(p, max, s, st);
    } else {
      StoppedAgrees(p, max, s, st.log);
    }
  }

  lemma BodyAgrees(p: Parser, max: nat, s: string, st: Inspector)
    requires Lawful(p) && st.state.Body? && QueueOk(st) && st.taken == 0 && BodyInvariant(p, s, st)
    ensures st.log == OneShot(p, max, s, MAX_PENDING_VERDICTS)
  {
    var n := |st.log| - 1;
    OneShotAfter(p, max, s, st.log[..n], MAX_PENDING_VERDICTS);
    assert st.log == st.log[..n] + [st.log[n]];
  }

  lemma StoppedAgrees(p: Parser, max: nat, s: string, log: seq<Verdict>)
    requires Lawful(p) && Stopped(p, max, s, log) && |log| <= MAX_PENDING_VERDICTS && HeadsFit(p, max, s)
    ensures log == OneShot(p, max, s, MAX_PENDING_VERDICTS)
  {
    var n := |log| - 1;
    OneShotAfter(p, max, s, log[..n], MAX_PENDING_VERDICTS);
    var b := Tail(p, s, log[..n]).value;
    assert FitsAt(p, max, b);
    assert log == log[..n] + [log[n]];
    if p(b).CompleteHead? && Oversize(p, max, b) {
      OversizeComplete(p, max, b);
    }
    if p(b).PartialHead? {
      var k :| 0 <= k <= |b| && max <= k && p(b[..k]).PartialHead?;
    }
  }

  // ---------------------------------------------------------------- one read

  /** A single read logs exactly the one-shot verdicts. */
  lemma {:induction false} OneReadFrom(p: Parser, max: nat, st: Inspector, input: string)
    requires Lawful(p) && max > 0 && QueueOk(st) && st.taken == 0
    requires st.state.Head? && st.head == ""
    ensures Observe(p, max, st, input).log == st.log + OneShot(p, max, input, MAX_PENDING_VERDICTS - |st.log|)
    decreases |input|
  {
    var room := MAX_PENDING_VERDICTS - |st.log|;
    if input == "" {
    } else if room > 0 && Continues(p, input) {
      ReadThrough(p, max, st, input);
      OneShotStep(p, max, input, room);
      var next := Inspector(Head, "", st.scanned, st.log + [Persistent], 0);
      OneReadFrom(p, max, next, After(p, input));
      LogRegroup(st.log, OneShot(p, max, After(p, input), room - 1));
    } else {
      ReadLast(p, max, st, input);
    }
  }

  lemma LogRegroup(log: seq<Verdict>, rest: seq<Verdict>)
    ensures log + [Persistent] + rest == log + ([Persistent] + rest)
  {
  }

  /** Reading on past a persistent head and all of its body. */
  lemma ReadThrough(p: Parser, max: nat, st: Inspector, input: string)
    requires Lawful(p) && QueueOk(st) && HasRoom(st) && st.state.Head? && st.head == "" && input != ""
    requires Continues(p, input)
    ensures |After(p, input)| < |input|
    ensures Observe(p, max, st, input)
         == Observe(p, max, st.(log := st.log + [Persistent]), After(p, input))
  {
    var h := p(input);
    assert CompleteFits(p, input);
    var next := Finish(st, h.verdict, h.body);
    var rest := input[h.length..];
    assert Observe(p, max, st, input) == Observe(p, max, next, rest);
    if h.body > 0 {
      SkipBody(p, max, next, rest);
      assert rest[h.body..] == After(p, input);
    }
  }

  /** The read ends within this head or its body, or stops at it. */
  lemma ReadLast(p: Parser, max: nat, st: Inspector, input: string)
    requires Lawful(p) && max > 0 && QueueOk(st) && st.taken == 0 && st.state.Head? && st.head == "" && input != ""
    requires !HasRoom(st) || !Continues(p, input)
    ensures Observe(p, max, st, input).log == st.log + OneShot(p, max, input, MAX_PENDING_VERDICTS - |st.log|)
  {
    var h := p(input);
    if h.CompleteHead? {
      assert CompleteFits(p, input);
      var next := Finish(st, h.verdict, h.body);
      var rest := input[h.length..];
      if next.state.Body? && rest != "" {
        SkipBody(p, max, next, rest);
      }
    }
  }

  lemma SkipBody(p: Parser, max: nat, st: Inspector, input: string)
    requires Lawful(p) && QueueOk(st) && st.state.Body? && st.head == "" && input != ""
    ensures var n := st.state.remaining;
            Observe(p, max, st, input)
            == if n <= |input| then Observe(p, max, st.(state := Head), input[n..])
               else st.(state := Body(n - |input|))
  {
    var n := st.state.remaining;
    if n > |input| {
      assert input[|input|..] == "";
    }
  }

  lemma OneReadIsOneShot(p: Parser, max: nat, s: string)
    requires Lawful(p) && max > 0
    ensures Reads(p, max, FRESH, [s]).log == OneShot(p, max, s, MAX_PENDING_VERDICTS)
  {
    OneReadFrom(p, max, FRESH, s);
    assert [s][1..] == [];
    var r := Observe(p, max, FRESH, s);
    assert Reads(p, max, r, []) == r;
  }

  // ------------------------------------------------- independence of read sizes

  /** The streams whose verdicts do not depend on how they are read, but for the
      final `Terminal` of an undecided head. */
  ghost predicate SplitIndependent(p: Parser, max: nat, s: string)
    requires Lawful(p)
  {
    forall chunks: seq<string> :: Concat(chunks) == s ==>
      Agrees(p, max, s, Reads(p, max, FRESH, chunks).log, Reads(p, max, FRESH, [s]).log)
  }

  lemma {:induction false} TailOfPrefix(p: Parser, s: string, log: seq<Verdict>, n: nat)
    requires Lawful(p) && Tail(p, s, log).Some? && n <= |Tail(p, s, log).value|
    ensures |Tail(p, s, log).value| <= |s|
    ensures Tail(p, s[..|s| - |Tail(p, s, log).value| + n], log) == Some(Tail(p, s, log).value[..n])
    decreases |log|
  {
    if log != [] {
      TailStep(p, s, log);
      var next := After(p, s);
      TailOfPrefix(p, next, log[1..], n);
      PrefixContinues(p, s, |s| - |Tail(p, s, log).value| + n);
    } else {
      assert |s| - |s| + n == n;
    }
  }

  lemma PrefixContinues(p: Parser, s: string, cut: nat)
    requires Lawful(p) && Continues(p, s) && |s| - |After(p, s)| <= cut <= |s|
    ensures Continues(p, s[..cut]) && After(p, s[..cut]) == After(p, s)[..cut - (|s| - |After(p, s)|)]
  {
    CompletePrefix(p, s, cut);
    var used := p(s).length + p(s).body;
    assert s[..cut][used..] == s[used..][..cut - used];
  }

  lemma CutReference(p: Parser, max: nat, front: string, log: seq<Verdict>)
    requires Lawful(p) && |log| < MAX_PENDING_VERDICTS && Tail(p, front, log).Some?
    requires |Tail(p, front, log).value| >= max && p(Tail(p, front, log).value).PartialHead?
    ensures [] + OneShot(p, max, front, MAX_PENDING_VERDICTS) == log + [Terminal]
  {
    OneShotAfter(p, max, front, log, MAX_PENDING_VERDICTS);
  }

  /** After the first `max` bytes of a longer head the inspection has ended. */
  lemma CutMisfit(p: Parser, max: nat, s: string, log: seq<Verdict>) returns (cut: nat)
    requires Lawful(p) && max > 0 && |log| < MAX_PENDING_VERDICTS && Tail(p, s, log).Some?
    requires var h := p(Tail(p, s, log).value); h.CompleteHead? && h.length > max
    ensures cut <= |s|
    ensures var after := Observe(p, max, FRESH, s[..cut]); after.log == log + [Terminal] && after.state.Passthrough?
  {
    var b := Tail(p, s, log).value;
    assert CompleteFits(p, b);
    CompletePrefix(p, b, max);
    TailOfPrefix(p, s, log, max);
    cut := |s| - |b| + max;
    var front := s[..cut];
    var after := Observe(p, max, FRESH, front);
    assert after.log == log + [Terminal] by {
      CutReference(p, max, front, log);
      OneReadFrom(p, max, FRESH, front);
    }
    assert Tracks(p, max, front, after) by {
      NothingBefore(front);
      FreshTracks(p, max);
      ObserveTracks(p, max, "", FRESH, front);
    }
    TerminalEnds(p, max, front, after, log);
  }

  /** Cutting inside a head longer than `max` turns its verdict into `Terminal`. */
  lemma MisfitDiffers(p: Parser, max: nat, s: string) returns (chunks: seq<string>)
    requires Lawful(p) && max > 0 && !HeadsFit(p, max, s)
    ensures Concat(chunks) == s
    ensures !Agrees(p, max, s, Reads(p, max, FRESH, chunks).log, OneShot(p, max, s, MAX_PENDING_VERDICTS))
  {
    var log :| |log| < MAX_PENDING_VERDICTS && Tail(p, s, log).Some? && !FitsAt(p, max, Tail(p, s, log).value);
    var cut := CutMisfit(p, max, s, log);
    chunks := [s[..cut], s[cut..]];
    TwoReads(p, max, s[..cut], s[cut..]);
    assert s[..cut] + s[cut..] == s;
    MisfitReference(p, max, s, log);
    var reference := OneShot(p, max, s, MAX_PENDING_VERDICTS);
    assert (log + [Terminal])[|log|] == Terminal && (log + [Terminal] + [Terminal])[|log|] == Terminal;
    assert reference[|log|] != Terminal;
  }

  lemma MisfitReference(p: Parser, max: nat, s: string, log: seq<Verdict>)
    requires Lawful(p) && |log| < MAX_PENDING_VERDICTS && Tail(p, s, log).Some?
    requires var h := p(Tail(p, s, log).value); h.CompleteHead? && h.verdict != Terminal
    ensures var reference := OneShot(p, max, s, MAX_PENDING_VERDICTS);
            |reference| > |log| && reference[|log|] != Terminal
  {
    OneShotAfter(p, max, s, log, MAX_PENDING_VERDICTS);
    var rest := OneShot(p, max, Tail(p, s, log).value, MAX_PENDING_VERDICTS - |log|);
    assert rest != [] && rest[0] == p(Tail(p, s, log).value).verdict;
    assert (log + rest)[|log|] == rest[0];
  }

  /** Two reads, the first of which ends the inspection. */
  lemma TwoReads(p: Parser, max: nat, front: string, back: string)
    requires Lawful(p) && Observe(p, max, FRESH, front).state.Passthrough?
    ensures Concat([front, back]) == front + back
    ensures Reads(p, max, FRESH, [front, back]) == Observe(p, max, FRESH, front)
  {
    assert [front, back][1..] == [back] && [back][1..] == [];
    assert Concat([back]) == back + "";
    var after := Observe(p, max, FRESH, front);
    assert Reads(p, max, after, [back]) == Reads(p, max, after, []);
  }

  /** Tail follows persistent verdicts only. */
  lemma {:induction false} TailPersistent(p: Parser, s: string, log: seq<Verdict>)
    requires Tail(p, s, log).Some?
    ensures forall i :: 0 <= i < |log| ==> log[i] == Persistent
  {
    if log != [] {
      TailPersistent(p, s[p(s).length + p(s).body..], log[1..]);
      assert log == [log[0]] + log[1..];
    }
  }

  lemma TerminalEnds(p: Parser, max: nat, s: string, st: Inspector, log: seq<Verdict>)
    requires Tracks(p, max, s, st) && st.log == log + [Terminal]
    ensures st.state.Passthrough?
  {
    assert st.log[|log|] == Terminal;
    if st.state.Head? {
      TailPersistent(p, s, st.log);
    }
  }

  /** Every split of a stream logs the verdicts of one read, or all but the final
      `Terminal` of an undecided head, if and only if no head whose verdict
      matters exceeds `max_head_bytes`. */
  lemma SplitIndependentIffHeadsFit(p: Parser, max: nat, s: string)
    requires Lawful(p) && max > 0
    ensures SplitIndependent(p, max, s) <==> HeadsFit(p, max, s)
  {
    OneReadIsOneShot(p, max, s);
    if HeadsFit(p, max, s) {
      forall chunks: seq<string> | Concat(chunks) == s
        ensures Agrees(p, max, s, Reads(p, max, FRESH, chunks).log, Reads(p, max, FRESH, [s]).log)
      {
        SplitAgrees(p, max, chunks);
      }
    } else {
      var chunks := MisfitDiffers(p, max, s);
    }
  }

  lemma SplitAgrees(p: Parser, max: nat, chunks: seq<string>)
    requires Lawful(p) && max > 0 && HeadsFit(p, max, Concat(chunks))
    ensures var s := Concat(chunks);
            Agrees(p, max, s, Reads(p, max, FRESH, chunks).log, OneShot(p, max, s, MAX_PENDING_VERDICTS))
  {
    var s := Concat(chunks);
    assert Tracks(p, max, s, Reads(p, max, FRESH, chunks)) by {
      NothingBefore(s);
      FreshTracks(p, max);
      ReadsTrack(p, max, "", FRESH, chunks);
    }
    TracksAgrees(p, max, Concat(chunks), Reads(p, max, FRESH, chunks));
  }

  /** A persistent head longer than the limit is read differently in pieces. */
  lemma LongHeadDepends(p: Parser, max: nat, s: string)
    requires Lawful(p) && max > 0 && p(s).CompleteHead? && p(s).verdict != Terminal && p(s).length > max
    ensures !SplitIndependent(p, max, s)
  {
    assert Tail(p, s, []) == Some(s) && !FitsAt(p, max, s);
    SplitIndependentIffHeadsFit(p, max, s);
  }

  // ------------------------------------------------ which head a verdict is for

  /** Where the `n`-th head starts: after the lengths of the earlier heads and
      their bodies. */
  ghost function Offset(p: Parser, s: string, n: nat): nat
    decreases n
  {
    if n == 0 || !p(s).CompleteHead? then 0
    else
      var used := p(s).length + p(s).body;
      used + (if used <= |s| then Offset(p, s[used..], n - 1) else 0)
  }

  lemma {:induction false} TailAtOffset(p: Parser, s: string, log: seq<Verdict>)
    requires Tail(p, s, log).Some?
    ensures Offset(p, s, |log|) <= |s| && Tail(p, s, log).value == s[Offset(p, s, |log|)..]
  {
    if log != [] {
      var used := p(s).length + p(s).body;
      TailAtOffset(p, s[used..], log[1..]);
      var inner := Offset(p, s[used..], |log| - 1);
      assert s[used..][inner..] == s[used + inner..];
    }
  }

  lemma {:induction false} TailOfShorter(p: Parser, s: string, log: seq<Verdict>, n: nat)
    requires Tail(p, s, log).Some? && n < |log|
    ensures Tail(p, s, log[..n]).Some?
    ensures var b := Tail(p, s, log[..n]).value; p(b).CompleteHead? && p(b).verdict == Persistent
  {
    if n > 0 {
      TailOfShorter(p, s[p(s).length + p(s).body..], log[1..], n - 1);
      assert log[..n][1..] == log[1..][..n - 1];
    }
  }

  /** In every state the `n`-th verdict is for the head at the `n`-th offset;
      all verdicts before the last are persistent. */
  lemma VerdictsClassifyHeads(p: Parser, max: nat, stream: string, st: Inspector, n: nat)
    requires Tracks(p, max, stream, st) && n < |st.log|
    ensures Offset(p, stream, n) <= |stream|
    ensures Explains(p, max, stream[Offset(p, stream, n)..], st.log[n])
    ensures n + 1 < |st.log| ==> st.log[n] == Persistent
  {
    var m := |st.log| - 1;
    var complete := st.state.Head? || (st.state.Passthrough? && Refused(p, stream, st.log));
    var followed := if complete then st.log else st.log[..m];
    TailPersistent(p, stream, followed);
    if n < |followed| {
      TailOfShorter(p, stream, followed, n);
      assert followed[..n] == st.log[..n];
      assert followed[n] == st.log[n] == Persistent;
    }
    TailAtOffset(p, stream, st.log[..n]);
    assert n + 1 < |st.log| ==> followed[n] == st.log[n];
  }

  // ------------------------------------------------------- the service's side

  /** What happens on a connection: bytes are read, or Hyper dispatches the next
      request, whose handler would answer with `status`. */
  datatype Event = Read(bytes: string) | Dispatch(status: nat)

  /** `received` are the bytes read; `given` and `answered` the verdict and the
      status of each dispatched request; `closing` and `switched` how the
      connection ended for HTTP. */
  datatype Connection = Connection(
    io: Inspector, received: string, given: seq<Verdict>, answered: seq<nat>, closing: bool, switched: bool)

  const NEW := Connection(FRESH, "", [], [], false, false)

  /** `Http1Verdicts::next`. */
  function Next(st: Inspector): Verdict
    requires QueueOk(st)
  {
    if st.taken < |st.log| then st.log[st.taken] else Unclassified
  }

  /** The status `handle_http1` answers with: a refused head gets 400. */
  function AnswerStatus(verdict: Verdict, status: nat): nat {
    if verdict == Ambiguous || verdict == Unclassified then 400 else status
  }

  /** `handle_http1` closes after anything but a persistent request, unless the
      response switches protocols. */
  predicate ForcesClose(verdict: Verdict, status: nat) {
    verdict != Persistent && AnswerStatus(verdict, status) != 101
  }

  /** One event; nothing is dispatched once the connection is closing or switched. */
  function Happen(p: Parser, max: nat, c: Connection, e: Event): (r: Connection)
    requires Lawful(p) && QueueOk(c.io)
    ensures QueueOk(r.io)
  {
    match e
    case Read(bytes) => c.(io := Observe(p, max, c.io, bytes), received := c.received + bytes)
    case Dispatch(status) =>
      if c.closing || c.switched then c
      else
        var verdict := Next(c.io);
        c.(io := if c.io.taken < |c.io.log| then c.io.(taken := c.io.taken + 1) else c.io,
           given := c.given + [verdict],
           answered := c.answered + [AnswerStatus(verdict, status)],
           closing := ForcesClose(verdict, status),
           switched := AnswerStatus(verdict, status) == 101)
  }

  function Run(p: Parser, max: nat, c: Connection, events: seq<Event>): (r: Connection)
    requires Lawful(p) && QueueOk(c.io)
    ensures QueueOk(r.io)
    decreases |events|
  {
    if events == [] then c else Run(p, max, Happen(p, max, c, events[0]), events[1..])
  }

  /** Request `n` got the verdict of head `n`; only the last may lack a
      persistent verdict, and then the connection has ended. */
  ghost predicate ConnectionOk(p: Parser, max: nat, c: Connection) {
    && Tracks(p, max, c.received, c.io)
    && c.io.taken <= |c.given| <= c.io.taken + 1
    && c.given[..c.io.taken] == c.io.log[..c.io.taken]
    && (forall n :: 0 <= n < |c.given| && c.given[n] != Persistent ==> n == |c.given| - 1 && (c.closing || c.switched))
    && (|c.given| == c.io.taken + 1 ==> c.given[c.io.taken] == Unclassified && c.closing)
  }

  lemma TakingTracks(p: Parser, max: nat, stream: string, st: Inspector)
    requires Tracks(p, max, stream, st) && st.taken < |st.log|
    ensures Tracks(p, max, stream, st.(taken := st.taken + 1))
  {
  }

  lemma HappenOk(p: Parser, max: nat, c: Connection, e: Event)
    requires Lawful(p) && ConnectionOk(p, max, c)
    ensures ConnectionOk(p, max, Happen(p, max, c, e))
  {
    var r := Happen(p, max, c, e);
    match e {
      case Read(bytes) =>
        ObserveTracks(p, max, c.received, c.io, bytes);
        ObserveKeepsLog(p, max, c.io, bytes);
        assert r.io.log[..c.io.taken] == c.io.log[..c.io.taken];
      case Dispatch(status) =>
        if !c.closing && !c.switched && c.io.taken < |c.io.log| {
          TakingTracks(p, max, c.received, c.io);
          assert |c.given| == c.io.taken;
          assert r.io.log[..r.io.taken] == c.io.log[..c.io.taken] + [c.io.log[c.io.taken]];
          assert r.given[..r.io.taken] == r.given;
        }
    }
  }

  lemma FinishKeepsLog(st: Inspector, verdict: Verdict, body: nat)
    requires QueueOk(st)
    ensures st.log <= Finish(st, verdict, body).log
  {
  }

  lemma GrowKeepsLog(p: Parser, max: nat, st: Inspector, grown: string, scanned: nat)
    requires QueueOk(st)
    ensures st.log <= Grow(p, max, st, grown, scanned).log
  {
  }

  /** Reading only ever appends verdicts. */
  lemma {:induction false} ObserveKeepsLog(p: Parser, max: nat, st: Inspector, input: string)
    requires Lawful(p) && QueueOk(st)
    ensures st.log <= Observe(p, max, st, input).log
    decreases |st.head| + |input|, if st.state.Body? then 2 else 1
  {
    if input != "" && !st.state.Passthrough? {
      if st.state.Body? {
        var n := st.state.remaining;
        var skipped := if n <= |input| then n else |input|;
        ObserveKeepsLog(p, max, st.(state := if skipped == n then Head else Body(n - skipped)), input[skipped..]);
      } else if st.head == "" {
        if p(input).CompleteHead? {
          var h := p(input);
          assert CompleteFits(p, input);
          FinishKeepsLog(st, h.verdict, h.body);
          ObserveKeepsLog(p, max, Finish(st, h.verdict, h.body), input[h.length..]);
        } else {
          FinishKeepsLog(st, Terminal, 0);
        }
      } else {
        GrownKeepsLog(p, max, st, input);
      }
    }
  }

  lemma {:induction false} GrownKeepsLog(p: Parser, max: nat, st: Inspector, input: string)
    requires Lawful(p) && QueueOk(st) && input != "" && st.state.Head? && st.head != ""
    ensures st.log <= Observe(p, max, st, input).log
    decreases |st.head| + |input|, 0
  {
    var joined := st.head + input;
    var grown := Trimmed(joined);
    var scanned := Monus(st.scanned, Blank(joined));
    var rest := Leftover(p, grown, scanned);
    GrowKeepsLog(p, max, st, grown, scanned);
    if rest != "" {
      assert CompleteFits(p, grown);
      ObserveKeepsLog(p, max, Grow(p, max, st, grown, scanned), rest);
    }
  }

  /** On every run, whatever the reads and dispatches: request `n` is answered
      under the verdict of head `n`, the queue holds at most 256 verdicts, the
      buffered head stays under `max`, and a request without a persistent
      verdict is the last one dispatched. */
  lemma {:induction false} EveryRunOk(p: Parser, max: nat, c: Connection, events: seq<Event>)
    requires Lawful(p) && ConnectionOk(p, max, c)
    ensures ConnectionOk(p, max, Run(p, max, c, events))
    ensures var io := Run(p, max, c, events).io; QueueOk(io) && (io.head == "" || |io.head| < max)
    decreases |events|
  {
    if events != [] {
      HappenOk(p, max, c, events[0]);
      EveryRunOk(p, max, Happen(p, max, c, events[0]), events[1..]);
    }
  }

  lemma NewConnectionOk(p: Parser, max: nat)
    requires Lawful(p)
    ensures ConnectionOk(p, max, NEW)
  {
    FreshTracks(p, max);
  }

  /** From the first byte of a connection, whatever the reads and dispatches:
      request `n` was given the verdict that explains the head at the `n`-th
      offset of the bytes received; only a request dispatched before its head
      was decided has none, and it closes the connection. */
  lemma EveryRequestExplained(p: Parser, max: nat, events: seq<Event>, n: nat)
    requires Lawful(p) && n < |Run(p, max, NEW, events).given|
    ensures var c := Run(p, max, NEW, events);
            || (&& n < c.io.taken && Offset(p, c.received, n) <= |c.received|
                && Explains(p, max, c.received[Offset(p, c.received, n)..], c.given[n]))
            || (n == |c.given| - 1 == c.io.taken && c.given[n] == Unclassified && c.closing)
    ensures var c := Run(p, max, NEW, events);
            c.given[n] != Persistent ==> n == |c.given| - 1 && (c.closing || c.switched)
  {
    NewConnectionOk(p, max);
    EveryRunOk(p, max, NEW, events);
    var c := Run(p, max, NEW, events);
    if n < c.io.taken {
      VerdictsClassifyHeads(p, max, c.received, c.io, n);
      assert c.given[n] == c.given[..c.io.taken][n] == c.io.log[..c.io.taken][n];
    }
  }
}
