/**
 Exactly which streams get the same verdicts however they are split into reads
 (src/app/http1.rs).
 */
module Http1Splits {
  import opened Basics
  import opened Http1Head
  import opened Http1Machine
  import opened Http1Runs

  /** Every split into reads logs the verdicts of one read. */
  ghost predicate SameVerdicts(p: Parser, max: nat, s: string)
    requires Lawful(p)
  {
    forall chunks: seq<string> :: Concat(chunks) == s ==>
      Reads(p, max, FRESH, chunks).log == Reads(p, max, FRESH, [s]).log
  }

  /** Some way of reading `b` leaves its start in the buffer: `b` is unfinished,
      one of the blank lines at its front can be cut in two, or its first byte
      behind them is not malformed yet. */
  ghost predicate Waits(p: Parser, b: string) {
    || p(b).PartialHead?
    || '\r' in b[..Blank(b)]
    || (Blank(b) < |b| && p(b[..Blank(b) + 1]).PartialHead?)
  }

  /** The verdict of an undecided head is lost to some split. */
  ghost predicate Loses(p: Parser, max: nat, s: string) {
    max > 1 && exists log: seq<Verdict> :: LosesAfter(p, max, s, log)
  }

  ghost predicate LosesAfter(p: Parser, max: nat, s: string, log: seq<Verdict>) {
    |log| < MAX_PENDING_VERDICTS && Undecided(p, max, s, log) && Waits(p, Tail(p, s, log).value)
  }

  // --------------------------------------------- what a buffered head has shown

  /** The buffer came from a head that could be buffered. */
  ghost predicate Began(p: Parser, t: string) {
    '\r' in t[..Blank(t)] || (Blank(t) < |t| && p(t[..Blank(t) + 1]).PartialHead?)
  }

  ghost predicate Buffering(p: Parser, stream: string, st: Inspector) {
    st.state.Head? && st.head != "" ==>
      Tail(p, stream, st.log).Some? && Began(p, Tail(p, stream, st.log).value)
  }

  lemma PartialPrefix(p: Parser, b: string, n: nat)
    requires Lawful(p) && p(b).PartialHead? && n <= |b|
    ensures p(b[..n]).PartialHead?
  {
    assert Stable(p, b[..n], b[n..]);
    assert b[..n] + b[n..] == b;
  }

  lemma PartialBegan(p: Parser, t: string)
    requires Lawful(p) && p(t).PartialHead? && Trimmed(t) != ""
    ensures Began(p, t)
  {
    PartialPrefix(p, t, Blank(t) + 1);
  }

  /** Blank lines in front of a byte that starts none were cut after a carriage return. */
  lemma BlankAfterByte(u: string, input: string)
    requires u != "" && Blank(u) == 0 && Blank(u + input) > 0
    ensures u[0] == '\r'
  {
    assert (u + input)[0] == u[0];
  }

  lemma FrontKept(t: string, input: string, n: nat)
    requires n <= |t|
    ensures (t + input)[..n] == t[..n]
  {
  }

  lemma StillBegan(p: Parser, t: string, input: string)
    requires Began(p, t)
    ensures Began(p, t + input)
  {
    var whole := t + input;
    BlankExtend(t, input);
    FrontKept(t, input, Blank(t));
    if '\r' in t[..Blank(t)] {
      var i :| 0 <= i < Blank(t) && t[..Blank(t)][i] == '\r';
      assert whole[..Blank(whole)][i] == '\r';
    } else if Blank(whole) == Blank(t) {
      FrontKept(t, input, Blank(t) + 1);
    } else {
      TrimmedTwice(t);
      BlankAfterByte(Trimmed(t), input);
      assert whole[..Blank(whole)][Blank(t)] == '\r';
    }
  }

  lemma BorrowedBuffers(p: Parser, max: nat, stream: string, st: Inspector, input: string)
    requires Lawful(p) && st.state.Head? && st.head == "" && Tracks(p, max, stream, st) && p(input).PartialHead?
    ensures Buffering(p, stream + input, BufferPartial(max, st, input))
  {
    var t := Tail(p, stream, st.log).value;
    if |input| < max && Trimmed(input) != "" {
      AfterBlank(p, t, input);
      TailExtend(p, stream, st.log, input);
      PartialBegan(p, t + input);
    }
  }

  lemma GrowBuffers(p: Parser, max: nat, stream: string, st: Inspector, input: string, grown: string, scanned: nat)
    requires Lawful(p) && st.state.Head? && st.head != "" && Tracks(p, max, stream, st) && Buffering(p, stream, st)
    ensures Buffering(p, stream + input, Grow(p, max, st, grown, scanned))
  {
    TailExtend(p, stream, st.log, input);
    StillBegan(p, Tail(p, stream, st.log).value, input);
  }

  /** Reading keeps that. */
  lemma {:induction false} ObserveBuffers(p: Parser, max: nat, stream: string, st: Inspector, input: string)
    requires Lawful(p) && Tracks(p, max, stream, st) && Buffering(p, stream, st)
    ensures Buffering(p, stream + input, Observe(p, max, st, input))
    decreases |st.head| + |input|, if st.state.Body? then 2 else 1
  {
    if input == "" {
      assert stream + input == stream;
    } else if st.state.Passthrough? {
    } else if st.state.Body? {
      var n := st.state.remaining;
      var skipped := if n <= |input| then n else |input|;
      BodyTracks(p, max, stream, st, input[..skipped]);
      ObserveBuffers(p, max, stream + input[..skipped],
                     st.(state := if skipped == n then Head else Body(n - skipped)), input[skipped..]);
      SplitInput(stream, input, skipped);
    } else if st.head == "" {
      if p(input).CompleteHead? {
        var h := p(input);
        BorrowedCompletes(p, max, stream, st, input);
        ObserveBuffers(p, max, stream + input[..h.length], Finish(st, h.verdict, h.body), input[h.length..]);
        SplitInput(stream, input, h.length);
      } else if p(input).PartialHead? {
        BorrowedBuffers(p, max, stream, st, input);
      }
    } else {
      BufferedBuffers(p, max, stream, st, input);
    }
  }

  lemma {:induction false} BufferedBuffers(p: Parser, max: nat, stream: string, st: Inspector, input: string)
    requires Lawful(p) && Tracks(p, max, stream, st) && Buffering(p, stream, st)
    requires input != "" && st.state.Head? && st.head != ""
    ensures Buffering(p, stream + input, Observe(p, max, st, input))
    decreases |st.head| + |input|, 0
  {
    var joined := st.head + input;
    var grown := Trimmed(joined);
    var scanned := Monus(st.scanned, Blank(joined));
    GrownBuffer(Tail(p, stream, st.log).value, st, input);
    if HasTerminator(grown, 0) && p(grown).CompleteHead? {
      var j := GrowCompletes(p, max, stream, st, input);
      SplitInput(stream, input, j);
      if j < |input| {
        ObserveBuffers(p, max, stream + input[..j], Grow(p, max, st, grown, scanned), input[j..]);
      }
    } else {
      GrowBuffers(p, max, stream, st, input, grown, scanned);
    }
  }

  lemma {:induction false} ReadsBuffer(p: Parser, max: nat, stream: string, st: Inspector, chunks: seq<string>)
    requires Lawful(p) && Tracks(p, max, stream, st) && Buffering(p, stream, st)
    ensures Tracks(p, max, stream + Concat(chunks), Reads(p, max, st, chunks))
    ensures Buffering(p, stream + Concat(chunks), Reads(p, max, st, chunks))
    decreases |chunks|
  {
    if chunks == [] {
      assert stream + Concat(chunks) == stream;
    } else {
      ObserveTracks(p, max, stream, st, chunks[0]);
      ObserveBuffers(p, max, stream, st, chunks[0]);
      ReadsBuffer(p, max, stream + chunks[0], Observe(p, max, st, chunks[0]), chunks[1..]);
      assert stream + chunks[0] + Concat(chunks[1..]) == stream + Concat(chunks);
    }
  }

  // ----------------------------------------------- what is not lost is the same

  lemma FreshBuffers(p: Parser, max: nat, chunks: seq<string>)
    requires Lawful(p)
    ensures var s, st := Concat(chunks), Reads(p, max, FRESH, chunks); Tracks(p, max, s, st) && Buffering(p, s, st)
  {
    NothingBefore(Concat(chunks));
    FreshTracks(p, max);
    ReadsBuffer(p, max, "", FRESH, chunks);
  }

  /** A head still awaited is one that waits. */
  lemma AwaitedWaits(p: Parser, max: nat, s: string, st: Inspector)
    requires Lawful(p) && Tracks(p, max, s, st) && Buffering(p, s, st) && st.state.Head?
    ensures Waits(p, Tail(p, s, st.log).value)
  {
    var t := Tail(p, s, st.log).value;
    if st.head == "" {
      ParseTrimmed(p, t);
    }
  }

  /** A split that logs something else lost the verdict of a head that waits. */
  lemma DifferenceIsLoss(p: Parser, max: nat, chunks: seq<string>)
    requires Lawful(p) && max > 0 && HeadsFit(p, max, Concat(chunks))
    requires Reads(p, max, FRESH, chunks).log != OneShot(p, max, Concat(chunks), MAX_PENDING_VERDICTS)
    ensures LosesAfter(p, max, Concat(chunks), Reads(p, max, FRESH, chunks).log)
  {
    var s, st := Concat(chunks), Reads(p, max, FRESH, chunks);
    FreshBuffers(p, max, chunks);
    TracksAgrees(p, max, s, st);
    AwaitedWaits(p, max, s, st);
  }

  // ------------------------------------------------------ a limit of one byte

  lemma {:induction false} ReadsKeepLog(p: Parser, max: nat, st: Inspector, chunks: seq<string>)
    requires Lawful(p) && QueueOk(st)
    ensures st.log <= Reads(p, max, st, chunks).log
    decreases |chunks|
  {
    if chunks != [] {
      ObserveKeepsLog(p, max, st, chunks[0]);
      ReadsKeepLog(p, max, Observe(p, max, st, chunks[0]), chunks[1..]);
    }
  }

  /** With a limit of one byte the first byte of an unfinished head is too many. */
  lemma {:induction false} OneByteLogs(p: Parser, chunks: seq<string>)
    requires Lawful(p) && Concat(chunks) != "" && p(Concat(chunks)).PartialHead?
    ensures Reads(p, 1, FRESH, chunks).log != []
    decreases |chunks|
  {
    var c := chunks[0];
    if c == "" {
      assert Concat(chunks) == Concat(chunks[1..]);
      OneByteLogs(p, chunks[1..]);
    } else {
      PartialPrefix(p, Concat(chunks), |c|);
      assert Concat(chunks)[..|c|] == c;
      ReadsKeepLog(p, 1, Observe(p, 1, FRESH, c), chunks[1..]);
    }
  }

  /** No head fits one byte. */
  lemma HeadsHaveTwoBytes(p: Parser, b: string)
    requires Lawful(p) && p(b).CompleteHead?
    ensures p(b).length >= 2
  {
    ParseTrimmed(p, b);
    TrimmedTwice(b);
    var t := Trimmed(b);
    assert EndsAtTerminator(p, t) && CompleteFits(p, t);
    assert HasTerminator(t[..p(t).length], 0);
  }

  lemma OneByteSame(p: Parser, chunks: seq<string>)
    requires Lawful(p) && HeadsFit(p, 1, Concat(chunks))
    ensures Reads(p, 1, FRESH, chunks).log == OneShot(p, 1, Concat(chunks), MAX_PENDING_VERDICTS)
  {
    var s, log := Concat(chunks), Reads(p, 1, FRESH, chunks).log;
    if log != OneShot(p, 1, s, MAX_PENDING_VERDICTS) {
      DifferenceIsLoss(p, 1, chunks);
      if log == [] {
        ParseTrimmed(p, s);
        OneByteLogs(p, chunks);
      } else {
        TailStep(p, s, log);
        assert Tail(p, s, []) == Some(s) && FitsAt(p, 1, s);
        HeadsHaveTwoBytes(p, s);
      }
    }
  }

  // ------------------------------------------------------ a split that loses it

  /** The state between heads. */
  predicate Idle(st: Inspector) {
    QueueOk(st) && st.state.Head? && st.head == "" && st.scanned == 0
  }

  /** A head that no read ends: short, without a terminator, and not complete. */
  ghost predicate Open(p: Parser, max: nat, b: string) {
    |Trimmed(b)| < max && !HasTerminator(Trimmed(b), 0) && !p(b).CompleteHead?
  }

  lemma ReadsOne(p: Parser, max: nat, st: Inspector, c: string)
    requires Lawful(p) && QueueOk(st)
    ensures Reads(p, max, st, [c]) == Observe(p, max, st, c) && Concat([c]) == c
  {
    assert [c][1..] == [];
    assert Reads(p, max, Observe(p, max, st, c), []) == Observe(p, max, st, c);
    assert Concat([c]) == c + "";
  }

  lemma ReadsMore(p: Parser, max: nat, st: Inspector, c: string, chunks: seq<string>)
    requires Lawful(p) && QueueOk(st)
    ensures Reads(p, max, st, [c] + chunks) == Reads(p, max, Observe(p, max, st, c), chunks)
    ensures Concat([c] + chunks) == c + Concat(chunks)
  {
    assert ([c] + chunks)[1..] == chunks;
  }

  /** The start of a head, read from rest, is buffered without its blank lines. */
  lemma StartBuffered(p: Parser, max: nat, st: Inspector, input: string, rest: string)
    requires Lawful(p) && Idle(st) && input != "" && |input| < max && p(input).PartialHead? && Trimmed(input) == rest
    ensures Observe(p, max, st, input) == st.(head := rest, scanned := |rest|)
  {
    NothingBefore(rest);
  }

  /** One blank line feed is read and forgotten. */
  lemma LineFeedRead(p: Parser, max: nat, st: Inspector)
    requires Lawful(p) && max > 1 && Idle(st)
    ensures Observe(p, max, st, "\n") == st
  {
    assert SkipsBlankLines(p, "");
    assert "\n" + "" == "\n" && "\n"[1..] == "" && Trimmed("\n") == "";
    StartBuffered(p, max, st, "\n", "");
  }

  /** The first byte of a head that waits is buffered. */
  lemma ByteBuffered(p: Parser, max: nat, st: Inspector, c: char)
    requires Lawful(p) && max > 1 && Idle(st) && c != '\n' && p([c]).PartialHead?
    ensures Observe(p, max, st, [c]) == st.(head := [c], scanned := 1)
  {
    assert Trimmed([c]) == [c];
    StartBuffered(p, max, st, [c], [c]);
  }

  /** The rest of an open head then ends nothing. */
  lemma RestWaits(p: Parser, max: nat, st: Inspector, c: char, rest: string)
    requires Lawful(p) && QueueOk(st) && st.state.Head? && st.head == [c] && st.scanned == 1
    requires Open(p, max, [c] + rest)
    ensures Observe(p, max, st, rest).log == st.log
  {
    if rest != "" {
      var joined := [c] + rest;
      var grown := Trimmed(joined);
      var scanned := Monus(1, Blank(joined));
      assert !HasTerminator(grown, Monus(scanned, 2));
    }
  }

  lemma CarriageReturnPartial(p: Parser)
    requires Lawful(p)
    ensures p("\r").PartialHead?
  {
    assert SkipsBlankLines(p, "");
    assert "\r\n" + "" == "\r\n";
    PartialPrefix(p, "\r\n", 1);
    assert "\r\n"[..1] == "\r";
  }

  /** Cutting behind the first byte. */
  lemma CutFirst(p: Parser, max: nat, st: Inspector, b: string) returns (chunks: seq<string>)
    requires Lawful(p) && max > 1 && Idle(st) && Open(p, max, b)
    requires b != "" && b[0] != '\n' && p(b[..1]).PartialHead?
    ensures Concat(chunks) == b && Reads(p, max, st, chunks).log == st.log
  {
    var c, rest := b[0], b[1..];
    assert b[..1] == [c] && b == [c] + rest;
    ByteBuffered(p, max, st, c);
    var held := Observe(p, max, st, [c]);
    RestWaits(p, max, held, c, rest);
    chunks := [[c]] + [rest];
    ReadsMore(p, max, st, [c], [rest]);
    ReadsOne(p, max, held, rest);
  }

  /** What is behind a blank line feed. */
  lemma BehindLineFeed(p: Parser, max: nat, b: string)
    requires Lawful(p) && b != "" && b[0] == '\n' && Open(p, max, b) && Waits(p, b)
    ensures Open(p, max, b[1..]) && Waits(p, b[1..])
  {
    var rest := b[1..];
    assert b == "\n" + rest;
    assert SkipsBlankLines(p, rest);
    assert Blank(b) == 1 + Blank(rest) && Trimmed(b) == Trimmed(rest);
    assert b[..Blank(b)] == "\n" + rest[..Blank(rest)];
    if Blank(b) < |b| {
      assert SkipsBlankLines(p, rest[..Blank(rest) + 1]);
      assert b[..Blank(b) + 1] == "\n" + rest[..Blank(rest) + 1];
    }
  }

  /** A way of reading an open head that waits without a verdict for it. */
  lemma {:induction false} LosingReads(p: Parser, max: nat, st: Inspector, b: string) returns (chunks: seq<string>)
    requires Lawful(p) && max > 1 && Idle(st) && Open(p, max, b) && Waits(p, b)
    ensures Concat(chunks) == b && Reads(p, max, st, chunks).log == st.log
    decreases |b|
  {
    if b != "" && b[0] == '\n' {
      BehindLineFeed(p, max, b);
      LineFeedRead(p, max, st);
      var more := LosingReads(p, max, st, b[1..]);
      chunks := ["\n"] + more;
      ReadsMore(p, max, st, "\n", more);
      assert b == "\n" + b[1..];
    } else if Blank(b) > 0 {
      assert b[..1] == "\r";
      CarriageReturnPartial(p);
      chunks := CutFirst(p, max, st, b);
    } else if p(b).PartialHead? {
      assert Trimmed(b) == b;
      chunks := [b];
      ReadsOne(p, max, st, b);
    } else {
      chunks := CutFirst(p, max, st, b);
    }
  }

  /** After all of the heads of `log` and their bodies nothing is buffered. */
  lemma IdleBetween(p: Parser, max: nat, front: string, log: seq<Verdict>, st: Inspector)
    requires |log| < MAX_PENDING_VERDICTS && Tail(p, front, log) == Some("")
    requires Tracks(p, max, front, st) && st.log == log
    ensures Idle(st)
  {
    TailPersistent(p, front, log);
    assert Trimmed("") == "";
    if st.state.Body? {
      BodyNotDone(p, front, st);
      assert false;
    }
  }

  lemma BodyNotDone(p: Parser, stream: string, st: Inspector)
    requires st.state.Body? && BodyInvariant(p, stream, st)
    ensures Tail(p, stream, st.log).None?
  {
    var n := |st.log| - 1;
    assert st.log == st.log[..n] + [Persistent];
    TailSnoc(p, stream, st.log[..n]);
    TailOne(p, Tail(p, stream, st.log[..n]).value);
  }

  lemma FrontRead(p: Parser, max: nat, front: string, log: seq<Verdict>)
    requires Lawful(p) && max > 0 && |log| < MAX_PENDING_VERDICTS && Tail(p, front, log) == Some("")
    ensures Observe(p, max, FRESH, front).log == log && Idle(Observe(p, max, FRESH, front))
  {
    var st := Observe(p, max, FRESH, front);
    OneReadFrom(p, max, FRESH, front);
    OneShotAfter(p, max, front, log, MAX_PENDING_VERDICTS);
    assert st.log == log;
    NothingBefore(front);
    FreshTracks(p, max);
    ObserveTracks(p, max, "", FRESH, front);
    IdleBetween(p, max, front, log, st);
  }

  lemma UndecidedIsOpen(p: Parser, max: nat, s: string, log: seq<Verdict>)
    requires Lawful(p) && Undecided(p, max, s, log)
    ensures Open(p, max, Tail(p, s, log).value)
  {
    TerminatorDecides(p, Tail(p, s, log).value);
  }

  /** The bytes before the head that `log` leads to. */
  lemma CutBefore(p: Parser, s: string, log: seq<Verdict>) returns (front: string)
    requires Lawful(p) && Tail(p, s, log).Some?
    ensures s == front + Tail(p, s, log).value && Tail(p, front, log) == Some("")
  {
    var b := Tail(p, s, log).value;
    TailOfPrefix(p, s, log, 0);
    TailAtOffset(p, s, log);
    front := s[..|s| - |b|];
    assert b[..0] == "";
  }

  lemma LossReference(p: Parser, max: nat, s: string, log: seq<Verdict>)
    requires Lawful(p) && LosesAfter(p, max, s, log)
    ensures OneShot(p, max, s, MAX_PENDING_VERDICTS) == log + [Terminal]
  {
    OneShotAfter(p, max, s, log, MAX_PENDING_VERDICTS);
  }

  /** The verdict that one read logs and some split does not. */
  lemma LossDiffers(p: Parser, max: nat, s: string, log: seq<Verdict>) returns (chunks: seq<string>)
    requires Lawful(p) && max > 1 && LosesAfter(p, max, s, log)
    ensures Concat(chunks) == s && Reads(p, max, FRESH, chunks).log == log
    ensures OneShot(p, max, s, MAX_PENDING_VERDICTS) == log + [Terminal]
  {
    LossReference(p, max, s, log);
    UndecidedIsOpen(p, max, s, log);
    var front := CutBefore(p, s, log);
    FrontRead(p, max, front, log);
    var st := Observe(p, max, FRESH, front);
    var more := LosingReads(p, max, st, Tail(p, s, log).value);
    ReadsMore(p, max, FRESH, front, more);
    chunks := [front] + more;
  }

  /** The verdicts do not depend on the reads if and only if every head whose
      verdict matters fits and no verdict can be lost. */
  lemma SameVerdictsIff(p: Parser, max: nat, s: string)
    requires Lawful(p) && max > 0
    ensures SameVerdicts(p, max, s) <==> HeadsFit(p, max, s) && !Loses(p, max, s)
  {
    OneReadIsOneShot(p, max, s);
    if !HeadsFit(p, max, s) {
      var chunks := MisfitDiffers(p, max, s);
    } else if Loses(p, max, s) {
      var log :| LosesAfter(p, max, s, log);
      var chunks := LossDiffers(p, max, s, log);
      assert |log| != |log + [Terminal]|;
    } else {
      forall chunks: seq<string> | Concat(chunks) == s
        ensures Reads(p, max, FRESH, chunks).log == Reads(p, max, FRESH, [s]).log
      {
        NothingLost(p, max, chunks);
      }
    }
  }

  lemma NothingLost(p: Parser, max: nat, chunks: seq<string>)
    requires Lawful(p) && max > 0 && HeadsFit(p, max, Concat(chunks)) && !Loses(p, max, Concat(chunks))
    ensures Reads(p, max, FRESH, chunks).log == OneShot(p, max, Concat(chunks), MAX_PENDING_VERDICTS)
  {
    if max == 1 {
      OneByteSame(p, chunks);
    } else if Reads(p, max, FRESH, chunks).log != OneShot(p, max, Concat(chunks), MAX_PENDING_VERDICTS) {
      DifferenceIsLoss(p, max, chunks);
    }
  }
}
