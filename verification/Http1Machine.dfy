/**
 The incremental head inspector as a function of its state and the bytes of
 one read, and the invariant that ties its state to the whole byte stream
 (src/app/http1.rs).
 */
module Http1Machine {
  import opened Basics
  import opened Http1Head

  const MAX_PENDING_VERDICTS: nat := 256

  datatype State = Head | Body(remaining: nat) | Passthrough

  /** `log` holds every verdict ever queued; the first `taken` have been
      handed to the service, the rest are pending. */
  datatype Inspector = Inspector(state: State, head: string, scanned: nat, log: seq<Verdict>, taken: nat)

  const FRESH := Inspector(Head, "", 0, [], 0)

  predicate QueueOk(st: Inspector) {
    st.taken <= |st.log| && |st.log| - st.taken <= MAX_PENDING_VERDICTS
  }

  predicate HasRoom(st: Inspector)
    requires QueueOk(st)
  {
    |st.log| - st.taken < MAX_PENDING_VERDICTS
  }

  /** `finish_head`. */
  function Finish(st: Inspector, verdict: Verdict, body: nat): (r: Inspector)
    requires QueueOk(st)
    ensures QueueOk(r) && r.taken == st.taken
  {
    var log := if HasRoom(st) then st.log + [verdict] else st.log;
    if verdict == Persistent && HasRoom(st) then
      st.(log := log, state := if body == 0 then Head else Body(body))
    else
      Inspector(Passthrough, "", 0, log, st.taken)
  }

  /** `buffer_partial_head`. */
  function BufferPartial(max: nat, st: Inspector, bytes: string): Inspector
    requires QueueOk(st)
  {
    if |bytes| >= max then Finish(st, Terminal, 0)
    else st.(head := st.head + Trimmed(bytes), scanned := |Trimmed(bytes)|)
  }

  /** The buffered head grows by one read; `grown` and `scanned` are the
      trimmed buffer and what of it is known to hold no terminator. */
  function Grow(p: Parser, max: nat, st: Inspector, grown: string, scanned: nat): Inspector
    requires QueueOk(st)
  {
    if grown == "" then st.(head := "", scanned := scanned)
    else if !HasTerminator(grown, Monus(scanned, 2)) then
      var waiting := st.(head := grown, scanned := |grown|);
      if |grown| >= max then Finish(waiting, Terminal, 0) else waiting
    else
      match p(grown)
      case CompleteHead(_, verdict, body) => Finish(st.(head := "", scanned := 0), verdict, body)
      case PartialHead =>
        var waiting := st.(head := grown, scanned := scanned);
        if |grown| >= max then Finish(waiting, Terminal, 0) else waiting
      case InvalidHead => Finish(st.(head := grown, scanned := scanned), Terminal, 0)
  }

  /** The bytes left over when a buffered head completes. */
  function Leftover(p: Parser, grown: string, scanned: nat): string
    requires Lawful(p)
  {
    if grown != "" && HasTerminator(grown, Monus(scanned, 2)) && p(grown).CompleteHead? then
      assert CompleteFits(p, grown);
      grown[p(grown).length..]
    else ""
  }

  /** `observe`: the state after one read. */
  function Observe(p: Parser, max: nat, st: Inspector, input: string): (r: Inspector)
    requires Lawful(p) && QueueOk(st)
    ensures QueueOk(r) && r.taken == st.taken
    decreases |st.head| + |input|, if st.state.Body? then 1 else 0
  {
    if input == "" then st
    else
      match st.state
      case Passthrough => st
      case Body(n) =>
        var skipped := if n <= |input| then n else |input|;
        Observe(p, max, st.(state := if skipped == n then Head else Body(n - skipped)), input[skipped..])
      case Head =>
        if st.head == "" then
          match p(input)
          case CompleteHead(length, verdict, body) =>
            assert CompleteFits(p, input);
            Observe(p, max, Finish(st, verdict, body), input[length..])
          case PartialHead => BufferPartial(max, st, input)
          case InvalidHead => Finish(st, Terminal, 0)
        else
          var joined := st.head + input;
          var grown := Trimmed(joined);
          var scanned := Monus(st.scanned, Blank(joined));
          var rest := Leftover(p, grown, scanned);
          if rest == "" then Grow(p, max, st, grown, scanned)
          else
            assert CompleteFits(p, grown);
            Observe(p, max, Grow(p, max, st, grown, scanned), rest)
  }

  lemma NothingBefore(s: string)
    ensures "" + s == s
  {
  }

  // ---------------------------------------------------- following the stream

  /** What is left of the stream after the heads and bodies of `log`, if all of
      them are persistent and complete. */
  ghost function Tail(p: Parser, stream: string, log: seq<Verdict>): Option<string> {
    if log == [] then Some(stream)
    else
      match p(stream)
      case CompleteHead(length, Persistent, body) =>
        if log[0] == Persistent && length + body <= |stream| then Tail(p, stream[length + body..], log[1..]) else None
      case _ => None
  }

  /** An incomplete head of `max` bytes or more was seen at the front. */
  ghost predicate Oversize(p: Parser, max: nat, b: string) {
    exists k :: 0 <= k <= |b| && max <= k && p(b[..k]).PartialHead?
  }

  /** Why a verdict other than persistent was given for the head at the front
      of `b`: it classifies that head, or the head is malformed or too large. */
  ghost predicate Explains(p: Parser, max: nat, b: string, verdict: Verdict) {
    || (p(b).CompleteHead? && p(b).verdict == verdict)
    || (verdict == Terminal && (p(b).InvalidHead? || Oversize(p, max, b)))
  }

  ghost predicate HeadInvariant(p: Parser, max: nat, t: string, st: Inspector) {
    && st.head == Trimmed(t)
    && !p(t).CompleteHead?
    && (p(t).InvalidHead? ==> !HasTerminator(st.head, 0))
    && st.scanned <= |st.head| && !HasTerminator(st.head[..st.scanned], 0)
    && (st.head != "" ==> |st.head| < max)
  }

  ghost predicate BodyInvariant(p: Parser, stream: string, st: Inspector)
    requires st.state.Body?
  {
    var n := |st.log| - 1;
    && st.head == "" && st.scanned == 0 && st.state.remaining > 0
    && n >= 0 && st.log[n] == Persistent
    && Tail(p, stream, st.log[..n]).Some?
    && var b := Tail(p, stream, st.log[..n]).value;
       p(b).CompleteHead? && p(b).verdict == Persistent
       && |b| + st.state.remaining == p(b).length + p(b).body
  }

  /** The log ends with the verdict that stopped the inspection. */
  ghost predicate Stopped(p: Parser, max: nat, stream: string, log: seq<Verdict>) {
    var n := |log| - 1;
    && n >= 0 && log[n] != Persistent
    && Tail(p, stream, log[..n]).Some?
    && Explains(p, max, Tail(p, stream, log[..n]).value, log[n])
  }

  /** The queue was full when the next head was decided. */
  ghost predicate Refused(p: Parser, stream: string, log: seq<Verdict>) {
    |log| >= MAX_PENDING_VERDICTS && Tail(p, stream, log).Some?
  }

  /** The state of the inspector after the bytes of `stream`. */
  ghost predicate Tracks(p: Parser, max: nat, stream: string, st: Inspector) {
    && QueueOk(st)
    && match st.state
       case Head => Tail(p, stream, st.log).Some? && HeadInvariant(p, max, Tail(p, stream, st.log).value, st)
       case Body(_) => BodyInvariant(p, stream, st)
       case Passthrough => st.head == "" && (Stopped(p, max, stream, st.log) || Refused(p, stream, st.log))
  }

  lemma NothingIsPartial(p: Parser)
    requires Lawful(p)
    ensures p("").PartialHead?
  {
  }

  lemma NothingBuffered(p: Parser, max: nat)
    requires p("").PartialHead?
    ensures HeadInvariant(p, max, "", FRESH)
  {
    assert Trimmed("") == "";
    assert FRESH.head[..FRESH.scanned] == "";
  }

  lemma FreshWhenPartial(p: Parser, max: nat)
    requires p("").PartialHead?
    ensures Tracks(p, max, "", FRESH)
  {
    NothingBuffered(p, max);
    assert Tail(p, "", []) == Some("");
  }

  lemma FreshTracks(p: Parser, max: nat)
    requires Lawful(p)
    ensures Tracks(p, max, "", FRESH)
  {
    NothingIsPartial(p);
    FreshWhenPartial(p, max);
  }

  // ------------------------------------------------------------ tail lemmas

  lemma InspectStable(p: Parser, b: string, x: string)
    requires Lawful(p)
    ensures !p(b).PartialHead? ==> p(b + x) == p(b)
    ensures p(b).CompleteHead? ==> 0 < p(b).length <= |b|
  {
    assert Stable(p, b, x) && CompleteFits(p, b);
  }

  lemma {:induction false} TailExtend(p: Parser, stream: string, log: seq<Verdict>, x: string)
    requires Lawful(p) && Tail(p, stream, log).Some?
    ensures Tail(p, stream + x, log) == Some(Tail(p, stream, log).value + x)
  {
    if log != [] {
      InspectStable(p, stream, x);
      var n := p(stream).length + p(stream).body;
      TailExtend(p, stream[n..], log[1..], x);
      assert (stream + x)[n..] == stream[n..] + x;
    }
  }

  lemma {:induction false} TailSnoc(p: Parser, stream: string, log: seq<Verdict>)
    requires Tail(p, stream, log).Some?
    ensures Tail(p, stream, log + [Persistent]) == Tail(p, Tail(p, stream, log).value, [Persistent])
  {
    if log == [] {
      assert log + [Persistent] == [Persistent];
    } else {
      var n := p(stream).length + p(stream).body;
      TailSnoc(p, stream[n..], log[1..]);
      assert (log + [Persistent])[1..] == log[1..] + [Persistent];
    }
  }

  lemma TailOne(p: Parser, b: string)
    ensures Tail(p, b, [Persistent])
         == (if p(b).CompleteHead? && p(b).verdict == Persistent
                && p(b).length + p(b).body <= |b|
             then Some(b[p(b).length + p(b).body..]) else None)
  {
    assert [Persistent][1..] == [];
  }

  lemma OversizeExtend(p: Parser, max: nat, b: string, x: string)
    requires Oversize(p, max, b)
    ensures Oversize(p, max, b + x)
  {
    var k :| 0 <= k <= |b| && max <= k && p(b[..k]).PartialHead?;
    assert (b + x)[..k] == b[..k];
  }

  /** A stopped log stays explained as more bytes arrive. */
  lemma PassthroughExtend(p: Parser, max: nat, stream: string, st: Inspector, x: string)
    requires Lawful(p) && st.state.Passthrough? && Tracks(p, max, stream, st)
    ensures Tracks(p, max, stream + x, st)
  {
    if Stopped(p, max, stream, st.log) {
      var n := |st.log| - 1;
      var b := Tail(p, stream, st.log[..n]).value;
      TailExtend(p, stream, st.log[..n], x);
      InspectStable(p, b, x);
      if Oversize(p, max, b) {
        OversizeExtend(p, max, b, x);
      }
    } else {
      TailExtend(p, stream, st.log, x);
    }
  }

  // ------------------------------------------------------- finishing a head

  /** Finishing the complete head that is all of the unread stream. */
  lemma FinishComplete(p: Parser, max: nat, stream: string, st: Inspector)
    requires Lawful(p) && QueueOk(st) && st.state == Head && st.head == "" && st.scanned == 0
    requires Tail(p, stream, st.log).Some?
    requires var b := Tail(p, stream, st.log).value;
             p(b).CompleteHead? && p(b).length == |b|
    ensures var h := p(Tail(p, stream, st.log).value);
            Tracks(p, max, stream, Finish(st, h.verdict, h.body))
  {
    var b := Tail(p, stream, st.log).value;
    var h := p(b);
    var r := Finish(st, h.verdict, h.body);
    if HasRoom(st) {
      assert r.log[..|st.log|] == st.log;
      if h.verdict == Persistent && h.body == 0 {
        FinishEmpty(p, max, stream, st);
      }
    }
  }

  /** Finishing a persistent head without a body. */
  lemma FinishEmpty(p: Parser, max: nat, stream: string, st: Inspector)
    requires Lawful(p) && QueueOk(st) && st.state == Head && st.head == "" && st.scanned == 0 && HasRoom(st)
    requires Tail(p, stream, st.log).Some?
    requires var b := Tail(p, stream, st.log).value;
             p(b).CompleteHead? && p(b).length == |b| && p(b).verdict == Persistent && p(b).body == 0
    ensures Tracks(p, max, stream, Finish(st, Persistent, 0))
  {
    var b := Tail(p, stream, st.log).value;
    TailSnoc(p, stream, st.log);
    TailOne(p, b);
    assert b[|b|..] == "" && Trimmed("") == "";
  }

  /** Finishing a malformed or oversized head. */
  lemma FinishTerminal(p: Parser, max: nat, stream: string, st: Inspector)
    requires Lawful(p) && QueueOk(st) && Tail(p, stream, st.log).Some?
    requires var b := Tail(p, stream, st.log).value; p(b).InvalidHead? || Oversize(p, max, b)
    ensures Tracks(p, max, stream, Finish(st, Terminal, 0))
  {
    var r := Finish(st, Terminal, 0);
    if HasRoom(st) {
      assert r.log[..|st.log|] == st.log;
    }
  }

  // -------------------------------------------------- one read keeps tracking

  /** Skipping body bytes. */
  lemma BodyTracks(p: Parser, max: nat, stream: string, st: Inspector, skip: string)
    requires Lawful(p) && st.state.Body? && Tracks(p, max, stream, st) && |skip| <= st.state.remaining
    ensures Tracks(p, max, stream + skip,
                   st.(state := if |skip| == st.state.remaining then Head else Body(st.state.remaining - |skip|)))
  {
    var n := |st.log| - 1;
    var b := Tail(p, stream, st.log[..n]).value;
    TailExtend(p, stream, st.log[..n], skip);
    InspectStable(p, b, skip);
    if |skip| == st.state.remaining {
      assert st.log == st.log[..n] + [Persistent];
      TailSnoc(p, stream + skip, st.log[..n]);
      TailOne(p, b + skip);
      assert (b + skip)[|b + skip|..] == "" && Trimmed("") == "";
    }
  }

  /** Bytes after nothing but blank lines parse as they do on their own. */
  lemma AfterBlank(p: Parser, t: string, input: string)
    requires Lawful(p) && Trimmed(t) == ""
    ensures p(t + input) == Shift(p(input), |t|)
    ensures Trimmed(t + input) == Trimmed(input)
  {
    BlankExtend(t, input);
    assert Trimmed(t) + input == input;
    ParseTrimmed(p, t + input);
    ParseTrimmed(p, input);
  }

  /** The borrowed path, when the head does not complete in this read. */
  lemma BorrowedTracks(p: Parser, max: nat, stream: string, st: Inspector, input: string)
    requires Lawful(p) && st.state.Head? && st.head == "" && Tracks(p, max, stream, st)
    requires !p(input).CompleteHead?
    ensures Tracks(p, max, stream + input,
                   if p(input).PartialHead? then BufferPartial(max, st, input) else Finish(st, Terminal, 0))
  {
    var t := Tail(p, stream, st.log).value;
    AfterBlank(p, t, input);
    TailExtend(p, stream, st.log, input);
    if p(input).InvalidHead? {
      FinishTerminal(p, max, stream + input, st);
    } else if |input| >= max {
      assert (t + input)[..|t + input|] == t + input;
      assert Oversize(p, max, t + input);
      FinishTerminal(p, max, stream + input, st);
    } else {
      TerminatorDecides(p, t + input);
      assert "" + Trimmed(input) == Trimmed(input);
      assert Trimmed(input)[..|Trimmed(input)|] == Trimmed(input);
    }
  }

  /** The borrowed path, when the head completes: the state just after the head. */
  lemma BorrowedCompletes(p: Parser, max: nat, stream: string, st: Inspector, input: string)
    requires Lawful(p) && st.state.Head? && st.head == "" && Tracks(p, max, stream, st)
    requires p(input).CompleteHead?
    ensures var h := p(input);
            && 0 < h.length <= |input|
            && Tracks(p, max, stream + input[..h.length], Finish(st, h.verdict, h.body))
  {
    var t := Tail(p, stream, st.log).value;
    var h := p(input);
    assert CompleteFits(p, input);
    AfterBlank(p, t, input);
    CompletePrefix(p, t + input, |t| + h.length);
    assert (t + input)[..|t| + h.length] == t + input[..h.length];
    TailExtend(p, stream, st.log, input[..h.length]);
    FinishComplete(p, max, stream + input[..h.length], st);
  }

  lemma TerminatorSlice(b: string, lo: nat, hi: nat)
    requires lo <= hi <= |b| && !HasTerminator(b, 0)
    ensures !HasTerminator(b[lo..hi], 0)
  {
    if HasTerminator(b[lo..hi], 0) {
      var i :| 0 <= i < hi - lo && TerminatorAt(b[lo..hi], i);
      assert TerminatorAt(b, lo + i);
    }
  }

  lemma ScannedSlice(head: string, input: string, k: nat, scanned: nat)
    requires k <= scanned <= |head|
    ensures (head + input)[k..][..scanned - k] == head[..scanned][k..scanned]
  {
  }

  /** The buffer after growing, and that scanning its new end is enough. */
  lemma GrownBuffer(t: string, st: Inspector, input: string)
    requires st.head == Trimmed(t) && st.scanned <= |st.head| && !HasTerminator(st.head[..st.scanned], 0)
    ensures var joined := st.head + input;
            var scanned := Monus(st.scanned, Blank(joined));
            && Trimmed(t + input) == Trimmed(joined)
            && scanned <= |Trimmed(joined)| && !HasTerminator(Trimmed(joined)[..scanned], 0)
            && (HasTerminator(Trimmed(joined), Monus(scanned, 2)) <==> HasTerminator(Trimmed(joined), 0))
  {
    var joined := st.head + input;
    var k := Blank(joined);
    var scanned := Monus(st.scanned, k);
    BlankExtend(t, input);
    if k <= st.scanned {
      TerminatorSlice(st.head[..st.scanned], k, st.scanned);
      ScannedSlice(st.head, input, k, st.scanned);
    }
    OverlapScan(Trimmed(joined), scanned);
  }

  /** The buffered path, when the head does not complete in this read. */
  lemma GrowTracks(p: Parser, max: nat, stream: string, st: Inspector, input: string)
    requires Lawful(p) && st.state.Head? && st.head != "" && Tracks(p, max, stream, st)
    requires var joined := st.head + input;
             !HasTerminator(Trimmed(joined), 0) || !p(Trimmed(joined)).CompleteHead?
    ensures var joined := st.head + input;
            Tracks(p, max, stream + input, Grow(p, max, st, Trimmed(joined), Monus(st.scanned, Blank(joined))))
  {
    var t := Tail(p, stream, st.log).value;
    var grown := Trimmed(st.head + input);
    GrownBuffer(t, st, input);
    TailExtend(p, stream, st.log, input);
    ParseTrimmed(p, t + input);
    TerminatorDecides(p, t + input);
    assert grown[..|grown|] == grown;
    if grown == "" {
    } else if HasTerminator(grown, 0) {
      FinishTerminal(p, max, stream + input, st.(head := grown, scanned := Monus(st.scanned, Blank(st.head + input))));
    } else if |grown| >= max {
      assert (t + input)[..|t + input|] == t + input;
      assert p(t + input).PartialHead? ==> Oversize(p, max, t + input);
      FinishTerminal(p, max, stream + input, st.(head := grown, scanned := |grown|));
    }
  }

  /** Where in the new bytes a buffered head completes. */
  lemma CompletionPoint(p: Parser, t: string, input: string) returns (j: nat)
    requires Lawful(p) && !p(t).CompleteHead? && p(t + input).CompleteHead?
    ensures 0 < j <= |input| && p(t + input).length == |t| + j
    ensures p(t + input[..j]) == p(t + input)
    ensures Blank(t + input) <= p(t + input).length
    ensures Trimmed(t + input)[p(t + input).length - Blank(t + input)..] == input[j..]
  {
    var whole := t + input;
    ParseTrimmed(p, whole);
    CompletePrefix(p, whole, |t|);
    assert whole[..|t|] == t;
    j := p(whole).length - |t|;
    CompletePrefix(p, whole, |t| + j);
    assert whole[..|t| + j] == t + input[..j];
    assert whole[Blank(whole)..][p(whole).length - Blank(whole)..] == whole[|t| + j..] == input[j..];
  }

  /** What growing does with a head that completes. */
  lemma GrowFinishes(p: Parser, max: nat, st: Inspector, grown: string, scanned: nat)
    requires Lawful(p) && QueueOk(st) && grown != ""
    requires HasTerminator(grown, Monus(scanned, 2)) && p(grown).CompleteHead?
    ensures p(grown).length <= |grown| && Leftover(p, grown, scanned) == grown[p(grown).length..]
    ensures Grow(p, max, st, grown, scanned)
         == Finish(st.(head := "", scanned := 0), p(grown).verdict, p(grown).body)
  {
    assert CompleteFits(p, grown);
  }

  /** Finishing the head that completes with the first `j` bytes of the read. */
  lemma CompletedTracks(p: Parser, max: nat, stream: string, st: Inspector, t: string, whole: string)
    requires Lawful(p) && QueueOk(st) && st.state.Head?
    requires Tail(p, stream, st.log) == Some(t) && |t| <= |whole| && whole[..|t|] == t
    requires p(whole).CompleteHead? && p(whole).length == |whole|
    ensures Tracks(p, max, stream + whole[|t|..],
                   Finish(st.(head := "", scanned := 0), p(whole).verdict, p(whole).body))
  {
    TailExtend(p, stream, st.log, whole[|t|..]);
    assert t + whole[|t|..] == whole;
    FinishComplete(p, max, stream + whole[|t|..], st.(head := "", scanned := 0));
  }

  /** The buffered path, when the head completes: the state just after the head. */
  lemma GrowCompletes(p: Parser, max: nat, stream: string, st: Inspector, input: string) returns (j: nat)
    requires Lawful(p) && st.state.Head? && st.head != "" && Tracks(p, max, stream, st)
    requires var joined := st.head + input;
             HasTerminator(Trimmed(joined), 0) && p(Trimmed(joined)).CompleteHead?
    ensures var joined := st.head + input;
            var scanned := Monus(st.scanned, Blank(joined));
            && 0 < j <= |input|
            && Leftover(p, Trimmed(joined), scanned) == input[j..]
            && Tracks(p, max, stream + input[..j], Grow(p, max, st, Trimmed(joined), scanned))
  {
    var t := Tail(p, stream, st.log).value;
    GrownBuffer(t, st, input);
    j := GrownCompletion(p, t, st.head, input);
    GrowFinishes(p, max, st, Trimmed(st.head + input), Monus(st.scanned, Blank(st.head + input)));
    PrefixOfJoin(t, input, j);
    CompletedTracks(p, max, stream, st, t, t + input[..j]);
  }

  lemma PrefixOfJoin(t: string, input: string, j: nat)
    requires j <= |input|
    ensures (t + input[..j])[..|t|] == t && (t + input[..j])[|t|..] == input[..j]
  {
  }

  /** Where the head completes, seen from the trimmed buffer. */
  lemma GrownCompletion(p: Parser, t: string, head: string, input: string) returns (j: nat)
    requires Lawful(p) && !p(t).CompleteHead? && Trimmed(t + input) == Trimmed(head + input)
    requires p(Trimmed(head + input)).CompleteHead?
    ensures 0 < j <= |input|
    ensures var h, g := p(t + input[..j]), p(Trimmed(head + input));
            && h.CompleteHead? && h.length == |t| + j && h.verdict == g.verdict && h.body == g.body
            && g.length <= |Trimmed(head + input)| && Trimmed(head + input)[g.length..] == input[j..]
  {
    ParseTrimmed(p, t + input);
    j := CompletionPoint(p, t, input);
    assert CompleteFits(p, Trimmed(head + input));
  }

  /** After every read the state is that of the bytes read so far. */
  lemma {:induction false} ObserveTracks(p: Parser, max: nat, stream: string, st: Inspector, input: string)
    requires Lawful(p) && Tracks(p, max, stream, st)
    ensures Tracks(p, max, stream + input, Observe(p, max, st, input))
    decreases |st.head| + |input|, if st.state.Body? then 2 else 1
  {
    if input == "" {
      assert stream + input == stream;
    } else if st.state.Passthrough? {
      PassthroughExtend(p, max, stream, st, input);
    } else if st.state.Body? {
      var n := st.state.remaining;
      var skipped := if n <= |input| then n else |input|;
      BodyTracks(p, max, stream, st, input[..skipped]);
      ObserveTracks(p, max, stream + input[..skipped],
                    st.(state := if skipped == n then Head else Body(n - skipped)), input[skipped..]);
      SplitInput(stream, input, skipped);
    } else if st.head == "" {
      if p(input).CompleteHead? {
        var h := p(input);
        BorrowedCompletes(p, max, stream, st, input);
        ObserveTracks(p, max, stream + input[..h.length], Finish(st, h.verdict, h.body), input[h.length..]);
        SplitInput(stream, input, h.length);
      } else {
        BorrowedTracks(p, max, stream, st, input);
      }
    } else {
      BufferedTracks(p, max, stream, st, input);
    }
  }

  lemma SplitInput(stream: string, input: string, j: nat)
    requires j <= |input|
    ensures stream + input[..j] + input[j..] == stream + input
    ensures j == |input| ==> stream + input[..j] == stream + input
  {
    assert input == input[..j] + input[j..];
  }

  lemma {:induction false} BufferedTracks(p: Parser, max: nat, stream: string, st: Inspector, input: string)
    requires Lawful(p) && Tracks(p, max, stream, st) && input != "" && st.state.Head? && st.head != ""
    ensures Tracks(p, max, stream + input, Observe(p, max, st, input))
    decreases |st.head| + |input|, 0
  {
    var joined := st.head + input;
    var grown := Trimmed(joined);
    var scanned := Monus(st.scanned, Blank(joined));
    GrownBuffer(Tail(p, stream, st.log).value, st, input);
    if HasTerminator(grown, 0) && p(grown).CompleteHead? {
      var j := GrowCompletes(p, max, stream, st, input);
      SplitInput(stream, input, j);
      if j < |input| {
        ObserveTracks(p, max, stream + input[..j], Grow(p, max, st, grown, scanned), input[j..]);
      }
    } else {
      GrowTracks(p, max, stream, st, input);
    }
  }
}
