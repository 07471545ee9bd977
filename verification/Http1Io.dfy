/**
 The inspected transport and its verdict queue as objects, each method proved
 to be the step function of the machine (src/app/http1.rs), and a small head
 parser that meets the laws the model assumes.
 */
module Http1Io {
  import opened Basics
  import opened Http1Head
  import M = Http1Machine
  import Http1Runs
  import Http1Splits

  /** The queue shared by the transport and the service; the history is ghost. */
  class Http1Verdicts {
    var pending: seq<Verdict>
    ghost var log: seq<Verdict>
    ghost var taken: nat

    ghost predicate Valid()
      reads this
    {
      taken <= |log| && pending == log[taken..] && |pending| <= M.MAX_PENDING_VERDICTS
    }

    constructor ()
      ensures Valid() && log == [] && taken == 0
    {
      pending, log, taken := [], [], 0;
    }

    method Push(verdict: Verdict) returns (accepted: bool)
      requires Valid()
      modifies this
      ensures Valid() && taken == old(taken)
      ensures accepted == (|old(pending)| < M.MAX_PENDING_VERDICTS)
      ensures log == if accepted then old(log) + [verdict] else old(log)
    {
      if |pending| >= M.MAX_PENDING_VERDICTS {
        return false;
      }
      pending := pending + [verdict];
      log := log + [verdict];
      return true;
    }

    /** Verdicts come out in the order they went in; an empty queue refuses. */
    method Next() returns (verdict: Verdict)
      requires Valid()
      modifies this
      ensures Valid() && log == old(log)
      ensures if old(taken) < |old(log)| then verdict == old(log)[old(taken)] && taken == old(taken) + 1
              else verdict == Unclassified && taken == old(taken)
    {
      if pending == [] {
        return Unclassified;
      }
      verdict := pending[0];
      pending := pending[1..];
      taken := taken + 1;
    }
  }

  class Http1InspectedIo {
    const library: Library
    const max: nat
    const verdicts: Http1Verdicts
    var state: M.State
    var head: string
    var scanned: nat

    ghost predicate Valid()
      reads this, verdicts
    {
      verdicts.Valid() && Lawful(InspectWith(library))
    }

    ghost function View(): M.Inspector
      reads this, verdicts
    {
      M.Inspector(state, head, scanned, verdicts.log, verdicts.taken)
    }

    constructor (library: Library, max: nat, verdicts: Http1Verdicts)
      requires verdicts.Valid() && Lawful(InspectWith(library))
      ensures Valid() && this.verdicts == verdicts && this.library == library && this.max == max
      ensures View() == M.FRESH.(log := verdicts.log, taken := verdicts.taken)
    {
      this.library, this.max, this.verdicts := library, max, verdicts;
      state, head, scanned := M.Head, "", 0;
    }

    method FinishHead(verdict: Verdict, body: nat)
      requires Valid()
      modifies this, verdicts
      ensures Valid() && View() == M.Finish(old(View()), verdict, body)
    {
      var accepted := verdicts.Push(verdict);
      if verdict == Persistent && accepted && body == 0 {
        state := M.Head;
      } else if verdict == Persistent && accepted {
        state := M.Body(body);
      } else {
        head, scanned, state := "", 0, M.Passthrough;
      }
    }

    method BufferPartialHead(bytes: string)
      requires Valid()
      modifies this, verdicts
      ensures Valid() && View() == M.BufferPartial(max, old(View()), bytes)
    {
      if |bytes| >= max {
        FinishHead(Terminal, 0);
      } else {
        var trimmed, _ := TrimLeadingEmptyLines(bytes);
        head := head + trimmed;
        scanned := |trimmed|;
      }
    }

    /** The buffered branch up to the point where a head completes: whether it
        did, and the bytes after it. */
    method GrowHead(input: string) returns (rest: string)
      requires Valid() && state == M.Head && head != "" && input != ""
      modifies this, verdicts
      ensures Valid()
      ensures var joined := old(head) + input;
              var skipped := Monus(old(scanned), Blank(joined));
              && View() == M.Grow(InspectWith(library), max, old(View()), Trimmed(joined), skipped)
              && rest == M.Leftover(InspectWith(library), Trimmed(joined), skipped)
      ensures rest != "" ==> head == ""
    {
      rest := "";
      var skipped;
      head := head + input;
      head, skipped := TrimLeadingEmptyLines(head);
      scanned := Monus(scanned, skipped);
      if head == "" {
        return;
      }
      if !HasTerminator(head, Monus(scanned, 2)) {
        scanned := |head|;
        if |head| >= max {
          FinishHead(Terminal, 0);
        }
        return;
      }
      var parsed := InspectHead(library, head);
      match parsed {
        case CompleteHead(length, verdict, body) =>
          assert CompleteFits(InspectWith(library), head);
          rest := head[length..];
          head, scanned := "", 0;
          FinishHead(verdict, body);
        case PartialHead =>
          if |head| >= max {
            FinishHead(Terminal, 0);
          }
        case InvalidHead =>
          FinishHead(Terminal, 0);
      }
    }

    /** `observe`. The recursive call is made with an empty head buffer and the
        measure is the buffer being non-empty, so it cannot recurse again. */
    method Observe(bytes: string)
      requires Valid()
      modifies this, verdicts
      ensures Valid() && View() == M.Observe(InspectWith(library), max, old(View()), bytes)
      decreases if head == "" then 0 else 1
    {
      var input := bytes;
      while input != ""
        invariant Valid() && (head != "" ==> old(head) != "")
        invariant M.Observe(InspectWith(library), max, old(View()), bytes)
               == M.Observe(InspectWith(library), max, View(), input)
        decreases |input|, if state.Body? then 1 else 0
      {
        match state {
          case Passthrough =>
            return;
          case Body(remaining) =>
            var skipped := if remaining <= |input| then remaining else |input|;
            state := if skipped == remaining then M.Head else M.Body(remaining - skipped);
            input := input[skipped..];
          case Head =>
            if head == "" {
              var parsed := InspectHead(library, input);
              match parsed {
                case CompleteHead(length, verdict, body) =>
                  assert CompleteFits(InspectWith(library), input);
                  FinishHead(verdict, body);
                  input := input[length..];
                case PartialHead =>
                  BufferPartialHead(input);
                  return;
                case InvalidHead =>
                  FinishHead(Terminal, 0);
                  return;
              }
            } else {
              var rest := GrowHead(input);
              if rest != "" {
                Observe(rest);
              }
              return;
            }
        }
      }
    }
  }

  // ---------------------------------------------------- the laws can be met

  /** The end of the first terminator at or after `i`, or 0. */
  function TerminatorEnd(b: string, i: nat): nat
    requires i <= |b|
    decreases |b| - i
  {
    if i == |b| then 0
    else if i + 1 < |b| && b[i] == '\n' && b[i + 1] == '\n' then i + 2
    else if i + 2 < |b| && b[i] == '\n' && b[i + 1] == '\r' && b[i + 2] == '\n' then i + 3
    else TerminatorEnd(b, i + 1)
  }

  /** A head is anything up to the first empty line; `!` in front spoils it. */
  function Simple(b: string): Parsed {
    var t := Trimmed(b);
    if t != "" && t[0] == '!' then Invalid
    else if TerminatorEnd(t, 0) > 0 then Complete(Blank(b) + TerminatorEnd(t, 0), "GET", [])
    else Partial
  }

  lemma {:induction false} TerminatorEndMeaning(b: string, i: nat)
    requires i <= |b|
    ensures TerminatorEnd(b, i) <= |b|
    ensures TerminatorEnd(b, i) > 0 <==> HasTerminator(b, i)
    ensures TerminatorEnd(b, i) > 0 ==> HasTerminator(b[..TerminatorEnd(b, i)], i)
    decreases |b| - i
  {
    if i < |b| {
      TerminatorEndMeaning(b, i + 1);
      var e := TerminatorEnd(b, i);
      if TerminatorAt(b, i) {
        assert TerminatorAt(b[..e], i);
      } else {
        if HasTerminator(b, i) {
          var k :| i <= k < |b| && TerminatorAt(b, k);
          assert k != i;
        }
        if e > 0 {
          var k :| i + 1 <= k < e && TerminatorAt(b[..e], k);
        }
      }
    }
  }

  lemma {:induction false} TerminatorEndStable(b: string, x: string, i: nat)
    requires i <= |b| && TerminatorEnd(b, i) > 0
    ensures TerminatorEnd(b + x, i) == TerminatorEnd(b, i)
    decreases |b| - i
  {
    if TerminatorEnd(b, i) > i + 3 || !TerminatorAt(b, i) {
      if !TerminatorAt(b, i) {
        assert i + 2 < |b| by {
          TerminatorEndMeaning(b, i + 1);
        }
        TerminatorEndStable(b, x, i + 1);
      }
    }
  }

  lemma SimpleStable(b: string, x: string)
    ensures LibraryStable(Simple, b, x)
  {
    var t := Trimmed(b);
    if !Simple(b).Partial? {
      TrimmedTwice(b);
      BlankExtend(b, x);
      assert |t| >= 1 && t[0] != '\n';
      TerminatorEndMeaning(t, 0);
      if t[0] == '!' {
        assert Blank(t + x) == 0;
      } else {
        assert |t| >= 2;
        assert Blank(t + x) == 0;
        TerminatorEndStable(t, x, 0);
      }
      assert Trimmed(t + x) == t + x;
    }
  }

  lemma SimpleSkips(b: string)
    ensures LibrarySkips(Simple, b)
  {
    assert ("\n" + b)[1..] == b && ("\r\n" + b)[2..] == b;
    assert Trimmed("\n" + b) == Trimmed(b) && Trimmed("\r\n" + b) == Trimmed(b);
  }

  lemma SimpleEnds(b: string)
    ensures LibraryEnds(Simple, b)
    ensures Simple(b).Complete? ==> 0 < Simple(b).length <= |b|
  {
    TerminatorEndMeaning(Trimmed(b), 0);
    assert Blank(b) == 0 ==> Trimmed(b) == b;
  }

  /** Some parser library meets the laws. */
  lemma LawsAreSatisfiable()
    ensures LibraryLaws(Simple)
  {
    assert Trimmed("") == "";
    forall b, x ensures LibraryStable(Simple, b, x) {
      SimpleStable(b, x);
    }
    forall b ensures LibrarySkips(Simple, b) && LibraryEnds(Simple, b)
      ensures Simple(b).Complete? ==> 0 < Simple(b).length <= |b|
    {
      SimpleSkips(b);
      SimpleEnds(b);
    }
  }

  lemma ThreeBytes(s: string)
    requires |s| == 3 && s[0] == 'G' && s[1] == '\n' && s[2] == '\n'
    ensures Simple(s) == Complete(3, "GET", [])
  {
    assert Trimmed(s) == s;
    assert TerminatorEnd(s, 1) == 3;
  }

  lemma NoFieldsPersist()
    ensures Framed(Complete(3, "GET", [])) == CompleteHead(3, Persistent, 0)
  {
    assert HeadVerdict("GET", []) == Persistent && BodyLength([]) == 0;
  }

  /** A head longer than the limit: one read accepts it, another split does not. */
  lemma LongHeadDependsOnReads()
    ensures Lawful(InspectWith(Simple))
    ensures !Http1Runs.SplitIndependent(InspectWith(Simple), 2, "G\n\n")
  {
    SimpleIsLawful();
    NoFieldsPersist();
    var p, s := InspectWith(Simple), "G\n\n";
    ThreeBytes(s);
    assert p(s) == Framed(Simple(s));
    Http1Runs.LongHeadDepends(p, 2, s);
  }

  lemma SimpleIsLawful()
    ensures Lawful(InspectWith(Simple))
  {
    LawsAreSatisfiable();
    LibraryGivesLawful(Simple);
  }

  /** Blank lines and an unfinished head that together reach the limit: one read
      gives a verdict, two reads give none. */
  lemma BlankLinesDependOnReads()
    ensures Lawful(InspectWith(Simple))
    ensures Http1Runs.Reads(InspectWith(Simple), 3, M.FRESH, ["\n\nG"]).log == [Terminal]
    ensures Http1Runs.Reads(InspectWith(Simple), 3, M.FRESH, ["\n\n"] + ["G"]).log == []
  {
    SimpleIsLawful();
    UnfinishedExamples();
    BlankReadApart(InspectWith(Simple), 3, "\n\nG", "\n\n", "G");
  }

  lemma BlankReadApart(p: Parser, max: nat, all: string, blank: string, rest: string)
    requires Lawful(p) && all != "" && p(all).PartialHead? && max <= |all|
    requires p(blank).PartialHead? && Trimmed(blank) == "" && |blank| < max
    requires p(rest).PartialHead? && |rest| < max
    ensures Http1Runs.Reads(p, max, M.FRESH, [all]).log == [Terminal]
    ensures Http1Runs.Reads(p, max, M.FRESH, [blank] + [rest]).log == []
  {
    Http1Splits.ReadsOne(p, max, M.FRESH, all);
    var first := M.Observe(p, max, M.FRESH, blank);
    assert first == M.FRESH;
    Http1Splits.ReadsMore(p, max, M.FRESH, blank, [rest]);
    Http1Splits.ReadsOne(p, max, M.FRESH, rest);
  }

  lemma UnfinishedExamples()
    ensures InspectWith(Simple)("\n\nG").PartialHead?
    ensures InspectWith(Simple)("\n\n").PartialHead? && InspectWith(Simple)("G").PartialHead?
    ensures Trimmed("\n\n") == "" && Trimmed("G") == "G"
  {
    var all, blank, rest := "\n\nG", "\n\n", "G";
    assert all[1..] == "\nG" && "\nG"[1..] == rest && blank[1..] == "\n" && "\n"[1..] == "";
    assert Blank(rest) == 0 && Blank("\nG") == 1 && Blank(all) == 2 && Blank("\n") == 1 && Blank(blank) == 2;
    assert Trimmed(all) == rest && Trimmed(blank) == "" && Trimmed(rest) == rest;
    assert TerminatorEnd(rest, 1) == 0 && TerminatorEnd(rest, 0) == 0 && TerminatorEnd("", 0) == 0;
    assert Simple(all).Partial? && Simple(blank).Partial? && Simple(rest).Partial?;
    var p := InspectWith(Simple);
    assert p(all).PartialHead? && p(blank).PartialHead? && p(rest).PartialHead?;
  }

  lemma BlankThenBad(s: string)
    requires |s| == 3 && s[0] == '\r' && s[1] == '\n' && s[2] == '!'
    ensures Simple(s).Invalid? && Blank(s) == 2 && Trimmed(s) == s[2..]
  {
    assert Blank(s[2..]) == 0;
  }

  /** A malformed head behind a blank line that a read can cut in two: one read
      gives a verdict, some split gives none. */
  lemma CutBlankLineDependsOnReads()
    ensures Lawful(InspectWith(Simple))
    ensures !Http1Splits.SameVerdicts(InspectWith(Simple), 3, "\r\n!")
  {
    SimpleIsLawful();
    var p, s := InspectWith(Simple), "\r\n!";
    BlankThenBad(s);
    assert p(s) == Framed(Simple(s));
    assert s[..Blank(s)][0] == '\r';
    assert M.Tail(p, s, []) == Some(s);
    assert Http1Splits.LosesAfter(p, 3, s, []);
    Http1Splits.SameVerdictsIff(p, 3, s);
  }
}
